/** The solar-position chain of the library's `View`: from a location and an
    instant, the Julian Date, the ephemeris day, the sun's anomalies and
    ecliptic longitude, its equatorial coordinates, the observer's hour angle,
    azimuth and elevation, and the estimated transit, rise and set instants.
    The approximations are those of the "Position of the Sun" method of
    aa.quae.nl; their accuracy is not part of the model. */
module SunSector {
  import opened Wrappers
  import opened Math

  /** A point in time as a host Date holds it: whole milliseconds since the
      Unix epoch. */
  type Instant = int

  /** An observer at a location, at an instant. */
  datatype View = View(latitude: Degrees, longitude: Degrees, date: Instant)

  datatype SunPosition = SunPosition(declination: Degrees, rightAscension: Degrees)

  datatype ObserverAngles = ObserverAngles(azimuth: Degrees, elevation: Degrees)

  /** Sunrise, solar noon and sunset; a missing rise or set stands for the
      Invalid Date the host yields when the sun does not cross the horizon. */
  datatype Times = Times(sunrise: Option<Instant>, noon: Instant, sunset: Option<Instant>)

  const MsPerDay: real := 86400000.0
  const UnixEpochJulianDate: real := 2440587.5
  const Y2kJulianDate: real := 2451545.0
  /** Terrestrial Time minus Universal Time, 69.184 s, in days. */
  const TerrestrialTime: real := 69184.0 / MsPerDay

  /** 2000-01-01T12:00:00Z, the instant whose Julian Date is Y2kJulianDate. */
  const Y2kInstant: Instant := 946728000000

  /** Half a day in milliseconds. */
  const HalfDay: int := 43200000

  /* ---------------------------------------------------------------------
     Construction and the instant
     --------------------------------------------------------------------- */

  /** `SunSector.from`: a view at the given location; `now` is the clock
      reading the host uses when no date is given. */
  function From(latitude: Degrees, longitude: Degrees, date: Option<Instant>, now: Instant): (v: View)
    ensures v.latitude == latitude && v.longitude == longitude
    ensures date.Some? ==> v.date == date.value
    ensures date.None? ==> v.date == now
  {
    View(latitude, longitude, date.GetOr(now))
  }

  /** The same location at another instant. */
  function At(v: View, when: Instant): (r: View)
    ensures r.latitude == v.latitude && r.longitude == v.longitude
    ensures r.date == when
  {
    v.(date := when)
  }

  /** Only the instant changes: a later `At` overrides an earlier one, and
      `At` with the view's own instant gives the view back. */
  lemma AtReplacesOnlyTheInstant(v: View, a: Instant, b: Instant)
    ensures At(At(v, a), b) == At(v, b)
    ensures At(v, v.date) == v
    ensures At(v, a) == At(v, b) <==> a == b
  {
  }

  /** The view's time value; a host Date holds whole milliseconds. */
  function UnixTime(v: View): (r: real)
    ensures IsInteger(r)
  {
    v.date as real
  }

  /** Days since noon UT of 4713 BC January 1 (Julian calendar). */
  function JulianDate(v: View): (r: real)
    ensures (r - UnixEpochJulianDate) * MsPerDay == UnixTime(v)
  {
    UnixTime(v) / MsPerDay + UnixEpochJulianDate
  }

  /** The same location at a Julian Date; the instant is truncated toward zero
      to whole milliseconds, as a host Date is. */
  function AtJulianDate(v: View, jd: real): (r: View)
    ensures r.latitude == v.latitude && r.longitude == v.longitude
    ensures -1.0 / MsPerDay < JulianDate(r) - jd < 1.0 / MsPerDay
  {
    At(v, Trunc((jd - UnixEpochJulianDate) * MsPerDay))
  }

  /** The Julian Date round trip: exact from a view, exact from a Julian Date
      that names a whole millisecond, and the Unix epoch is Julian Date
      2440587.5. */
  lemma JulianDateRoundTrip(v: View, jd: real)
    ensures AtJulianDate(v, JulianDate(v)) == v
    ensures IsInteger((jd - UnixEpochJulianDate) * MsPerDay) ==> JulianDate(AtJulianDate(v, jd)) == jd
    ensures JulianDate(AtJulianDate(v, jd)) == jd ==> IsInteger((jd - UnixEpochJulianDate) * MsPerDay)
    ensures JulianDate(At(v, 0)) == 2440587.5
  {
    TruncOfInteger(v.date);
    var x := (jd - UnixEpochJulianDate) * MsPerDay;
    if IsInteger(x) {
      TruncOfInteger(x.Floor);
    }
    var k := Trunc(x);
    assert JulianDate(AtJulianDate(v, jd)) == k as real / MsPerDay + UnixEpochJulianDate;
    if JulianDate(AtJulianDate(v, jd)) == jd {
      assert x == k as real;
    }
  }

  /** Days since 2000-01-01T12:00 Terrestrial Time. */
  function EphemerisDay(v: View): (r: real)
    ensures r == (v.date - Y2kInstant) as real / MsPerDay + TerrestrialTime
  {
    JulianDate(v) - Y2kJulianDate + TerrestrialTime
  }

  /** The ephemeris day advances by one for every MsPerDay milliseconds, and
      at the J2000 instant it is the Terrestrial Time offset alone. */
  lemma EphemerisDayElapsed(v: View, a: Instant, b: Instant)
    ensures EphemerisDay(At(v, a)) - EphemerisDay(At(v, b)) == (a - b) as real / MsPerDay
    ensures EphemerisDay(AtJulianDate(v, Y2kJulianDate)) == TerrestrialTime
  {
    TruncOfInteger(Y2kInstant);
  }

  /* ---------------------------------------------------------------------
     The sun's position
     --------------------------------------------------------------------- */

  /** The sun's mean anomaly, in [0, 360). */
  function MeanAnomaly(v: View): (r: Degrees)
    ensures 0.0 <= r as real < 360.0
    ensures IsInteger((357.5291 + 0.98560028 * EphemerisDay(v) - r as real) / 360.0)
  {
    Mod(357.5291 + 0.98560028 * EphemerisDay(v), 360.0) as Degrees
  }

  /** The equation of center, bounded by the sum of its coefficients. */
  function EquationOfCenter(t: Trig, v: View): (r: Degrees)
    requires t.Valid()
    ensures -1.9351 <= r as real <= 1.9351
  {
    var m := Rad(t, MeanAnomaly(v));
    (1.9148 * Sin(t, m) + 0.02 * Sin(t, 2.0 * m) + 0.0003 * Sin(t, 3.0 * m)) as Degrees
  }

  function TrueAnomaly(t: Trig, v: View): (r: Degrees)
    requires t.Valid()
    ensures 0.0 <= r as real < 360.0
    ensures IsInteger(((MeanAnomaly(v) + EquationOfCenter(t, v) - r) as real) / 360.0)
  {
    Mod((MeanAnomaly(v) + EquationOfCenter(t, v)) as real, 360.0) as Degrees
  }

  /** The sun's geocentric ecliptic longitude: the heliocentric one turned by
      180 degrees. */
  function EclipticLongitude(t: Trig, v: View): (r: Degrees)
    requires t.Valid()
    ensures 0.0 <= r as real < 360.0
    ensures IsInteger((102.9373 + TrueAnomaly(t, v) as real + 180.0 - r as real) / 360.0)
  {
    Mod(102.9373 + TrueAnomaly(t, v) as real + 180.0, 360.0) as Degrees
  }

  /** Declination and right ascension of the sun. */
  function Sun(t: Trig, v: View): (r: SunPosition)
    requires t.Valid()
    ensures -90.0 <= r.declination as real <= 90.0
    ensures -180.0 <= r.rightAscension as real <= 180.0
  {
    EquatorialCoordinates(t, EclipticLongitude(t, v))
  }

  /** Declination and right ascension for an ecliptic longitude, with the
      axial tilt of 23.4393 degrees. */
  function EquatorialCoordinates(t: Trig, longitude: Degrees): (r: SunPosition)
    requires t.Valid()
    ensures -90.0 <= r.declination as real <= 90.0
    ensures -180.0 <= r.rightAscension as real <= 180.0
  {
    var axialTilt := Rad(t, 23.4393);
    var l := Rad(t, longitude);
    UnitProduct(Sin(t, axialTilt), Sin(t, l));
    var declination := Asin(t, Sin(t, axialTilt) * Sin(t, l)).value;
    var rightAscension := Atan2(t, Sin(t, l) * Cos(t, axialTilt), Cos(t, l));
    DegOnAsinRange(t, declination);
    DegOnAtan2Range(t, rightAscension);
    SunPosition(Deg(t, declination), Deg(t, rightAscension))
  }

  function Declination(t: Trig, v: View): (r: Degrees)
    requires t.Valid()
    ensures -90.0 <= r as real <= 90.0
  {
    Sun(t, v).declination
  }

  function RightAscension(t: Trig, v: View): (r: Degrees)
    requires t.Valid()
    ensures -180.0 <= r as real <= 180.0
  {
    Sun(t, v).rightAscension
  }

  /** Local sidereal time, in [0, 360). */
  function SiderealTime(v: View): (r: Degrees)
    ensures 0.0 <= r as real < 360.0
    ensures IsInteger((280.147 + 360.9856235 * EphemerisDay(v) + v.longitude as real - r as real) / 360.0)
  {
    Mod(280.147 + 360.9856235 * EphemerisDay(v) + v.longitude as real, 360.0) as Degrees
  }

  /** The hour angle measured from today's local noon: sidereal time minus
      right ascension, brought into [-180, 180). */
  function HourAngle(t: Trig, v: View): (r: Degrees)
    requires t.Valid()
    ensures -180.0 <= r as real < 180.0
    ensures r as real == Mod((SiderealTime(v) - RightAscension(t, v)) as real + 180.0, 360.0) - 180.0
  {
    var ha := SiderealTime(v) - Sun(t, v).rightAscension;
    ModWithinTwoTurns(ha as real + 180.0, 360.0);
    if ha < 180.0 then ha else ha - 360.0
  }

  /** Azimuth (from north, through east) and elevation of the sun. */
  function Angles(t: Trig, v: View): (r: ObserverAngles)
    requires t.Valid()
    ensures 0.0 <= r.azimuth as real < 360.0
    ensures -90.0 <= r.elevation as real <= 90.0
  {
    var ha := Rad(t, HourAngle(t, v));
    var lat := Rad(t, v.latitude);
    var dec := Rad(t, Sun(t, v).declination);
    ObserverAngles(AzimuthAt(t, ha, lat, dec), ElevationAt(t, ha, lat, dec))
  }

  /** The horizontal transform's azimuth; the formula measures from south, so
      180 degrees are added to measure from north. */
  function AzimuthAt(t: Trig, ha: Radians, lat: Radians, dec: Radians): (r: Degrees)
    requires t.Valid()
    ensures 0.0 <= r as real < 360.0
  {
    var y := Atan2(t, Sin(t, ha), Cos(t, ha) * Sin(t, lat) - Tan(t, dec) * Cos(t, lat));
    Mod(180.0 + Deg(t, y) as real, 360.0) as Degrees
  }

  /** The horizontal transform's elevation; the asin argument always lies in
      [-1, 1], so the elevation is never NaN. */
  function ElevationAt(t: Trig, ha: Radians, lat: Radians, dec: Radians): (r: Degrees)
    requires t.Valid()
    ensures -90.0 <= r as real <= 90.0
  {
    var sl, cl, sd, cd, ch := Sin(t, lat), Cos(t, lat), Sin(t, dec), Cos(t, dec), Cos(t, ha);
    Pythagoras(t, lat);
    Pythagoras(t, dec);
    UnitCombination(sl, cl, sd, cd, ch);
    var e := Asin(t, sl * sd + cl * cd * ch).value;
    DegOnAsinRange(t, e);
    Deg(t, e)
  }

  function Azimuth(t: Trig, v: View): (r: Degrees)
    requires t.Valid()
    ensures 0.0 <= r as real < 360.0
  {
    Angles(t, v).azimuth
  }

  function Elevation(t: Trig, v: View): (r: Degrees)
    requires t.Valid()
    ensures -90.0 <= r as real <= 90.0
  {
    Angles(t, v).elevation
  }

  /** Every quantity of the sun itself depends on the instant alone, not on
      the observer's location. */
  lemma SunDependsOnlyOnInstant(t: Trig, v: View, w: View)
    requires t.Valid()
    requires v.date == w.date
    ensures EphemerisDay(v) == EphemerisDay(w)
    ensures MeanAnomaly(v) == MeanAnomaly(w)
    ensures EclipticLongitude(t, v) == EclipticLongitude(t, w)
    ensures Sun(t, v) == Sun(t, w)
    ensures EquationOfTime(t, v) == EquationOfTime(t, w)
  {
    assert EphemerisDay(v) == EphemerisDay(w);
    assert MeanAnomaly(v) == MeanAnomaly(w);
    assert EquationOfCenter(t, v) == EquationOfCenter(t, w);
    assert TrueAnomaly(t, v) == TrueAnomaly(t, w);
  }

  /** Longitudes 360 degrees apart name the same meridian: the sidereal time,
      hour angle, azimuth, elevation and transit estimate all agree. */
  lemma SameMeridian(t: Trig, v: View, w: View)
    requires t.Valid()
    requires w == v.(longitude := v.longitude + 360.0)
    ensures SiderealTime(w) == SiderealTime(v)
    ensures HourAngle(t, w) == HourAngle(t, v)
    ensures Angles(t, w) == Angles(t, v)
    ensures TransitEstimate(t, w) == TransitEstimate(t, v)
  {
    SameMeridianSiderealTime(v, w);
    SunDependsOnlyOnInstant(t, v, w);
    assert HourAngle(t, w) == HourAngle(t, v);
    SameMeridianTransit(t, v, w);
  }

  lemma SameMeridianSiderealTime(v: View, w: View)
    requires w == v.(longitude := v.longitude + 360.0)
    ensures SiderealTime(w) == SiderealTime(v)
  {
    var x := 280.147 + 360.9856235 * EphemerisDay(v) + v.longitude as real;
    assert 280.147 + 360.9856235 * EphemerisDay(w) + w.longitude as real == x + 1 as real * 360.0;
    ModPeriodic(x, 360.0, 1);
  }

  lemma SameMeridianTransit(t: Trig, v: View, w: View)
    requires t.Valid()
    requires w == v.(longitude := v.longitude + 360.0)
    ensures TransitEstimate(t, w) == TransitEstimate(t, v)
  {
    SunDependsOnlyOnInstant(t, v, w);
    var localTime := EphemerisDay(v) + v.longitude as real / 360.0;
    assert EphemerisDay(w) + w.longitude as real / 360.0 == localTime + 1.0;
    RoundShift(localTime);
  }

  /* ---------------------------------------------------------------------
     Transit, rise and set
     --------------------------------------------------------------------- */

  /** The equation of time, in days; bounded by the sum of its coefficients. */
  function EquationOfTime(t: Trig, v: View): (r: real)
    requires t.Valid()
    ensures -0.0122222 <= r <= 0.0122222
  {
    var m := Rad(t, MeanAnomaly(v));
    var l := Rad(t, EclipticLongitude(t, v));
    0.0053472 * Sin(t, m) - 0.006875 * Sin(t, 2.0 * l)
  }

  /** The Julian Date estimated for the local solar transit nearest the view:
      the local time is rounded to the nearest whole day, and the equation of
      time is added. */
  function TransitEstimate(t: Trig, v: View): (r: real)
    requires t.Valid()
    ensures r - Y2kJulianDate - EquationOfTime(t, v) + v.longitude as real / 360.0
            == Round(EphemerisDay(v) + v.longitude as real / 360.0) as real
    ensures -0.5 <= r - EquationOfTime(t, v) - (JulianDate(v) + TerrestrialTime) <= 0.5
    ensures -0.5122222 <= r - (JulianDate(v) + TerrestrialTime) <= 0.5122222
  {
    var localTime := EphemerisDay(v) + v.longitude as real / 360.0;
    var nearest := Round(localTime);
    Y2kJulianDate + EphemerisDay(v) + (nearest as real - localTime) + EquationOfTime(t, v)
  }

  /** The view at the estimated solar transit. */
  function SolarTransit(t: Trig, v: View): (r: View)
    requires t.Valid()
    ensures r.latitude == v.latitude && r.longitude == v.longitude
    ensures -1.0 / MsPerDay < JulianDate(r) - TransitEstimate(t, v) < 1.0 / MsPerDay
  {
    AtJulianDate(v, TransitEstimate(t, v))
  }

  /** The cosine of the horizon hour angle at a given latitude and solar
      declination; None where the host divides by zero. When present, it
      solves the horizon equation
      sin(h0) = sin(lat)·sin(dec) + cos(lat)·cos(dec)·cos(H). */
  function HorizonCosineAt(t: Trig, latitude: Degrees, declination: Degrees): (r: Option<real>)
    requires t.Valid()
    ensures r.Some? <==> Cos(t, Rad(t, latitude)) * Cos(t, Rad(t, declination)) != 0.0
    ensures r.Some? ==>
      Sin(t, Rad(t, -0.83)) == Sin(t, Rad(t, latitude)) * Sin(t, Rad(t, declination))
        + Cos(t, Rad(t, latitude)) * Cos(t, Rad(t, declination)) * r.value
  {
    var lat := Rad(t, latitude);
    var dec := Rad(t, declination);
    SolveHorizon(Sin(t, Rad(t, -0.83)), Sin(t, lat) * Sin(t, dec), Cos(t, lat) * Cos(t, dec))
  }

  /** The x with `s0 == p + den * x`, which exists exactly when den is not 0. */
  function SolveHorizon(s0: real, p: real, den: real): (r: Option<real>)
    ensures r.Some? <==> den != 0.0
    ensures r.Some? ==> s0 == p + den * r.value
  {
    if den == 0.0 then None else Some((s0 - p) / den)
  }

  /** The hour angle at which the sun's centre stands 0.83 degrees below the
      horizon; None on polar day or polar night, where the host's acos gives
      NaN. */
  function HorizonHourAngle(t: Trig, v: View): (r: Option<Degrees>)
    requires t.Valid()
    ensures r.Some? <==> var c := HorizonCosineAt(t, v.latitude, Declination(t, v));
      c.Some? && -1.0 <= c.value <= 1.0
    ensures r.Some? ==> 0.0 <= r.value as real <= 180.0
  {
    match HorizonCosineAt(t, v.latitude, Declination(t, v))
    case None => None
    case Some(c) =>
      match Acos(t, c)
      case None => None
      case Some(a) =>
        DegOnAcosRange(t, a);
        Some(Deg(t, a))
  }

  /** Moving a whole-millisecond instant by at most half a day and truncating
      stays on the same side of it and within half a day. */
  lemma ShiftedInstant(n: Instant, d: real)
    requires 0.0 <= d <= HalfDay as real
    ensures n - HalfDay <= Trunc(n as real - d) <= n <= Trunc(n as real + d) <= n + HalfDay
    ensures -1.0 < Trunc(n as real - d) as real - (n as real - d) < 1.0
    ensures -1.0 < Trunc(n as real + d) as real - (n as real + d) < 1.0
  {
    TruncOfInteger(n);
    TruncOfInteger(n - HalfDay);
    TruncOfInteger(n + HalfDay);
    TruncMonotone(n as real - d, n as real);
    TruncMonotone((n - HalfDay) as real, n as real - d);
    TruncMonotone(n as real, n as real + d);
    TruncMonotone(n as real + d, (n + HalfDay) as real);
  }

  /** Sunrise, solar noon and sunset around the transit nearest the view. */
  function SunTimes(t: Trig, v: View): (r: Times)
    requires t.Valid()
    ensures r.noon == SolarTransit(t, v).date
    ensures r.sunrise.Some? <==> HorizonHourAngle(t, SolarTransit(t, v)).Some?
    ensures r.sunset.Some? <==> r.sunrise.Some?
    ensures r.sunrise.Some? && r.sunset.Some? ==> r.sunrise.value <= r.noon <= r.sunset.value
    ensures r.sunrise.Some? ==> r.noon - r.sunrise.value <= HalfDay
    ensures r.sunset.Some? ==> r.sunset.value - r.noon <= HalfDay
  {
    var noon := SolarTransit(t, v);
    RiseNoonSet(v, noon, HorizonHourAngle(t, noon))
  }

  /** The times around a transit view `noon`, given its horizon hour angle;
      rise and set are placed the hour angle, converted to days, before and
      after noon. */
  function RiseNoonSet(v: View, noon: View, ht: Option<Degrees>): (r: Times)
    requires ht.Some? ==> 0.0 <= ht.value as real <= 180.0
    ensures r.noon == noon.date
    ensures r.sunrise.Some? <==> ht.Some?
    ensures r.sunset.Some? <==> ht.Some?
    ensures ht.Some? ==> r.sunrise.value <= r.noon <= r.sunset.value
    ensures ht.Some? ==> r.noon - r.sunrise.value <= HalfDay && r.sunset.value - r.noon <= HalfDay
  {
    match ht
    case None => Times(None, noon.date, None)
    case Some(a) =>
      var h := a as real / 360.0;
      var sunrise := AtJulianDate(v, JulianDate(noon) - h);
      var sunset := AtJulianDate(v, JulianDate(noon) + h);
      ShiftedInstant(noon.date, h * MsPerDay);
      OffsetFromJulianDate(v, noon, h);
      Times(Some(sunrise.date), noon.date, Some(sunset.date))
  }

  /** Rise and set are requested symmetrically about noon, at the horizon hour
      angle converted to days, which is at most half a day; each comes back
      within a millisecond of its request. */
  lemma RiseNoonSetSymmetric(v: View, noon: View, ht: Degrees)
    requires 0.0 <= ht as real <= 180.0
    ensures 0.0 <= ht as real / 360.0 <= 0.5
    ensures RiseNoonSet(v, noon, Some(ht)).sunrise == Some(AtJulianDate(v, JulianDate(noon) - ht as real / 360.0).date)
    ensures RiseNoonSet(v, noon, Some(ht)).sunset == Some(AtJulianDate(v, JulianDate(noon) + ht as real / 360.0).date)
    ensures -1.0 < RiseNoonSet(v, noon, Some(ht)).sunrise.value as real - (noon.date as real - ht as real / 360.0 * MsPerDay) < 1.0
    ensures -1.0 < RiseNoonSet(v, noon, Some(ht)).sunset.value as real - (noon.date as real + ht as real / 360.0 * MsPerDay) < 1.0
  {
    var h := ht as real / 360.0;
    ShiftedInstant(noon.date, h * MsPerDay);
    OffsetFromJulianDate(v, noon, h);
  }

  /** Offsetting a view's Julian Date by h days offsets its instant by h days'
      worth of milliseconds, before truncation. */
  lemma OffsetFromJulianDate(v: View, w: View, h: real)
    ensures AtJulianDate(v, JulianDate(w) + h).date == Trunc(w.date as real + h * MsPerDay)
    ensures AtJulianDate(v, JulianDate(w) - h).date == Trunc(w.date as real - h * MsPerDay)
  {
    assert (JulianDate(w) + h - UnixEpochJulianDate) * MsPerDay == w.date as real + h * MsPerDay;
    assert (JulianDate(w) - h - UnixEpochJulianDate) * MsPerDay == w.date as real - h * MsPerDay;
  }
}
