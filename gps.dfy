/** GPS helpers: degree/minute/second rationals to decimal degrees, the
    hemisphere sign, and `round(x, 6)` on the result. */
module Gps {
  import opened Optional
  import opened Tags

  function RatioValue(r: Ratio): real
    requires r.den != 0
  {
    r.num as real / r.den as real
  }

  /** The first three ratios exist and none of them divides by zero. */
  predicate Convertible(t: TagValue) {
    t.Ratios? && |t.values| >= 3
    && t.values[0].den != 0 && t.values[1].den != 0 && t.values[2].den != 0
  }

  /** `_convert_to_degrees`: `d + m/60 + s/3600`. An ASCII tag (no `.num` on its
      values), fewer than three ratios or a zero denominator raise, which is
      `None` here. Only the first three ratios are read. */
  function ConvertToDegrees(t: TagValue): (r: Option<real>)
    ensures r.Some? <==> Convertible(t)
  {
    if Convertible(t) then
      Some(RatioValue(t.values[0]) + RatioValue(t.values[1]) / 60.0
           + RatioValue(t.values[2]) / 3600.0)
    else None
  }

  /** Non-negative minutes and seconds that add up to less than sixty minutes
      place the value in `[d, d + 1)`. */
  lemma DegreesWithinDegree(t: TagValue)
    requires Convertible(t)
    requires 0.0 <= RatioValue(t.values[1]) && 0.0 <= RatioValue(t.values[2])
    requires RatioValue(t.values[1]) + RatioValue(t.values[2]) / 60.0 < 60.0
    ensures var d := RatioValue(t.values[0]);
      d <= ConvertToDegrees(t).value < d + 1.0
  {
  }

  /** Python's `round(n)` on an exact value: nearest integer, ties to even. */
  function RoundHalfEven(y: real): (k: int)
    ensures -0.5 <= k as real - y <= 0.5
  {
    var f := y.Floor;
    var frac := y - f as real;
    if frac < 0.5 then f
    else if frac > 0.5 then f + 1
    else if f % 2 == 0 then f
    else f + 1
  }

  /** `round(x, 6)`: nearest multiple of one millionth, ties to even. */
  function Round6(x: real): (r: real)
    ensures -0.0000005 <= r - x <= 0.0000005
  {
    RoundHalfEven(x * 1000000.0) as real / 1000000.0
  }

  /** Ties to even are symmetric about zero, so rounding commutes with negation. */
  lemma RoundHalfEvenNegate(y: real)
    ensures RoundHalfEven(-y) == -RoundHalfEven(y)
  {
    var f := y.Floor;
    if f as real == y {
      assert (-y).Floor == -f;
    } else {
      assert (-y).Floor == -f - 1;
    }
  }

  lemma Round6Negate(x: real)
    ensures Round6(-x) == -Round6(x)
  {
    assert -x * 1000000.0 == -(x * 1000000.0);
    RoundHalfEvenNegate(x * 1000000.0);
  }

  /** `get_gps_coords`: both position tags must be present and convertible and
      both hemisphere tags present (a missing one is the empty string, which
      has no `.printable`); any failure is `(None, None)`, i.e. `None`. */
  function GetGpsCoords(tags: TagTable): (r: Option<(real, real)>)
    ensures r.Some? <==>
      GpsLatitude in tags && GpsLongitude in tags
      && Convertible(tags[GpsLatitude]) && Convertible(tags[GpsLongitude])
      && GpsLatitudeRef in tags && GpsLongitudeRef in tags
  {
    if GpsLatitude in tags && GpsLongitude in tags then
      match (ConvertToDegrees(tags[GpsLatitude]), ConvertToDegrees(tags[GpsLongitude]))
      case (Some(lat), Some(lon)) =>
        if GpsLatitudeRef !in tags || GpsLongitudeRef !in tags then None
        else
          var lat' := if tags[GpsLatitudeRef].printable == "S" then -lat else lat;
          var lon' := if tags[GpsLongitudeRef].printable == "W" then -lon else lon;
          Some((Round6(lat'), Round6(lon')))
      case _ => None
    else None
  }

  /** A returned coordinate is the rounded magnitude, negated exactly for the
      southern or western hemisphere, and within half a millionth of the
      signed exact value. */
  lemma GpsHemisphere(tags: TagTable)
    requires GetGpsCoords(tags).Some?
    ensures var (lat, lon) := GetGpsCoords(tags).value;
      var latDeg := ConvertToDegrees(tags[GpsLatitude]).value;
      var lonDeg := ConvertToDegrees(tags[GpsLongitude]).value;
      var south := tags[GpsLatitudeRef].printable == "S";
      var west := tags[GpsLongitudeRef].printable == "W";
      && lat == (if south then -Round6(latDeg) else Round6(latDeg))
      && lon == (if west then -Round6(lonDeg) else Round6(lonDeg))
      && -0.0000005 <= lat - (if south then -latDeg else latDeg) <= 0.0000005
      && -0.0000005 <= lon - (if west then -lonDeg else lonDeg) <= 0.0000005
  {
    Round6Negate(ConvertToDegrees(tags[GpsLatitude]).value);
    Round6Negate(ConvertToDegrees(tags[GpsLongitude]).value);
  }

  /** 40 deg 26' 46" N, 79 deg 58' 56" W resolves to (40.446111, -79.982222). */
  lemma PittsburghExample()
    ensures GetGpsCoords(map[
      GpsLatitude := Ratios([Ratio(40, 1), Ratio(26, 1), Ratio(46, 1)], "[40, 26, 46]"),
      GpsLatitudeRef := Text("N"),
      GpsLongitude := Ratios([Ratio(79, 1), Ratio(58, 1), Ratio(56, 1)], "[79, 58, 56]"),
      GpsLongitudeRef := Text("W")]) == Some((40.446111, -79.982222))
  {
    var lat := 40.0 + 26.0 / 60.0 + 46.0 / 3600.0;
    var lon := 79.0 + 58.0 / 60.0 + 56.0 / 3600.0;
    assert 40446111.0 <= lat * 1000000.0 < 40446111.5;
    assert 79982222.0 <= lon * 1000000.0 < 79982222.5;
    Round6Negate(lon);
  }
}
