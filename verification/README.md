# sun-sector in Dafny

A model of the solar-position library sun-sector. It takes an observer's
latitude and longitude (degrees) and an instant, and derives a chain of
quantities from them. The chain runs Julian Date, ephemeris day, mean anomaly,
equation of center, true anomaly, ecliptic longitude, declination and right
ascension, sidereal time, hour angle, then azimuth and elevation. A transit
estimate gives solar noon, and the horizon hour angle gives sunrise and sunset
around it. The formulas are those of the "Position of the Sun" method of
aa.quae.nl. Their numerical accuracy is not modelled.

Three modules, one per concern:

- `Wrappers` (`wrappers.dfy`): `Option`, which stands for the NaN or Invalid
  Date the host produces where a formula has no value.
- `Math` (`math.dfy`): the angle helpers of `src/math.ts`. `Degrees` and
  `Radians` are distinct newtypes over `real`, and `Deg`/`Rad` are the only
  bridges between them. The wrapped trigonometric functions, the host's
  truncating `%`, the library's true modulo `Mod`, truncation toward zero, and
  `Math.round` as `floor(x + 1/2)`.
- `SunSector` (`sun_sector.dfy`): the `View` of `src/sun-sector.ts` as an
  immutable record `(latitude, longitude, date)`, with one pure function per
  getter. `date` is whole milliseconds since the Unix epoch, the time value of
  a host `Date`.

The transcendental functions and pi are not defined. Every function that needs
them takes a `Trig` value holding `pi`, `sin`, `cos`, `tan`, `asin`, `acos` and
`atan2`. `Trig.Valid()` states all the model assumes about them:

- pi > 0
- sin and cos lie in [-1, 1]
- sin² + cos² = 1
- asin lies in [-π/2, π/2] and acos lies in [0, π], both on [-1, 1]
- atan2 lies in [-π, π]

Outside [-1, 1], `Asin` and `Acos` return `None`, the host's NaN. The
Pythagorean identity goes beyond the bare range facts. It is what proves the
elevation's asin argument always lies in [-1, 1] (`Math.UnitCombination`), so
in the model the elevation is never NaN.

Some facts about the source that shape the model:

- The raw hour-angle difference, sidereal time minus right ascension, lies in
  [-180, 540). The single subtract-360 step at or above 180 brings it into
  [-180, 180).
- Latitude and longitude are not range-checked.
- A missing sunrise or sunset is an Invalid Date, here `None`. Noon is always
  present.
- Solar noon is the direct transit estimate. The `atHourAngle` refinement loop
  has no live callers.

Names that differ from the source: `set` is a Dafny keyword, so the fields of
`Times` are `sunrise`, `noon` and `sunset`. The `times` getter is `SunTimes`.
The `sun` getter is `Sun`.

## Model

| member | source | states |
|---|---|---|
| `Math.Deg` | src/math.ts:16-18 | the result is the angle in degrees: half a turn, π radians, maps to 180 degrees and the scale is linear (r·π = x·180) |
| `Math.Rad` | src/math.ts:20-22 | the result is the angle in radians: 180 degrees map to π radians and the scale is linear (r·180 = x·π) |
| `Math.DegOfRad` | src/math.ts:16-22 | converting degrees to radians and back gives the same degrees |
| `Math.RadOfDeg` | src/math.ts:16-22 | converting radians to degrees and back gives the same radians |
| `Math.DegStrictlyIncreasing` | src/math.ts:16-18 | a < b exactly when deg(a) < deg(b) |
| `Math.DegOfMultiple` | src/math.ts:16-18 | k·π radians are exactly 180·k degrees |
| `Math.DegOnAtan2Range` | src/math.ts:16-18 | x lies in [-π, π] (the atan2 range) exactly when deg(x) lies in [-180, 180] |
| `Math.DegOntoAtan2Range` | src/math.ts:16-22 | every degree value in [-180, 180] is deg of a radian value in [-π, π], so the map is onto |
| `Math.DegOnAcosRange` | src/math.ts:16-18 | x lies in [0, π] (the acos range) exactly when deg(x) lies in [0, 180] |
| `Math.DegOnAsinRange` | src/math.ts:16-18 | x lies in [-π/2, π/2] (the asin range) exactly when deg(x) lies in [-90, 90] |
| `Math.Sin` | src/math.ts:24-26 | sine lies in [-1, 1] |
| `Math.Cos` | src/math.ts:28-30 | cosine lies in [-1, 1] |
| `Math.Pythagoras` | src/math.ts:24-30 | sin(x)² + cos(x)² = 1 for every radian value |
| `Math.Asin` | src/math.ts:36-38 | defined exactly on [-1, 1], NaN (None) elsewhere; values lie in [-π/2, π/2] |
| `Math.Acos` | src/math.ts:40-42 | defined exactly on [-1, 1], NaN (None) elsewhere; values lie in [0, π] |
| `Math.Atan2` | src/math.ts:44-46 | values lie in [-π, π] for every argument pair |
| `Math.UnitCombination` | src/sun-sector.ts:157-159 | for unit (sine, cosine) pairs a, b and c, d, and \|e\| ≤ 1, a·c + b·d·e lies in [-1, 1], so the elevation's asin argument is in its domain |
| `Math.Trunc` | src/sun-sector.ts:46-47 | the integer part toward zero: at most x and within 1 below it for x ≥ 0, at least x and within 1 above it for x < 0 |
| `Math.Round` | src/sun-sector.ts:205 | the result lies in (x - 1/2, x + 1/2] |
| `Math.RoundUnique` | src/sun-sector.ts:205 | k is the rounded value of x exactly when x - 1/2 < k ≤ x + 1/2 |
| `Math.RoundHalfUp` | src/sun-sector.ts:205 | halves round up, also below zero: 2.5 → 3, -2.5 → -2, -2.6 → -3 |
| `Math.RoundShift` | src/sun-sector.ts:205 | rounding x + 1 gives one more than rounding x |
| `Math.Rem` | src/math.ts:52 | the host's `%` takes the dividend's sign: for n > 0 it lies in [0, n) when m ≥ 0 and in (-n, 0] when m < 0, and m minus it is a whole multiple of n, which together fix the truncated remainder uniquely |
| `Math.FloorMod` | src/math.ts:48-53 | reference true modulo m - n·floor(m/n): in [0, n) and differing from m by a whole number of n |
| `Math.RemRemIsFloorMod` | src/math.ts:48-53 | `((m % n) + n) % n` equals the reference true modulo for every real m and every n > 0 |
| `Math.Mod` | src/math.ts:48-53 | for n > 0 the library's modulo equals the reference, lies in [0, n) for every m including negative m, and differs from m by an integer multiple of n |
| `Math.ModIdentityAndIdempotent` | src/math.ts:48-53 | the modulo is the identity on [0, n), and applying it twice equals applying it once |
| `Math.ModPeriodic` | src/math.ts:48-53 | adding any whole number of moduli to m leaves the modulo unchanged |
| `Math.ModWithinTwoTurns` | src/math.ts:48-53 | on [0, 2n) the modulo keeps values below n and subtracts n from the rest |
| `Math.ModOfNegative` | src/math.ts:49-52 | `-1 % 360` is -1 while the modulo of -1 by 360 is 359 |
| `SunSector.From` | src/sun-sector.ts:261-264 | the view has the given location; its date is the given one, or the clock reading when none is given |
| `SunSector.At` | src/sun-sector.ts:39-43 | the new view keeps latitude and longitude and has the given instant |
| `SunSector.AtReplacesOnlyTheInstant` | src/sun-sector.ts:39-43 | a later `at` overrides an earlier one, `at` with the view's own instant gives the view back, and distinct instants give distinct views |
| `SunSector.UnixTime` | src/sun-sector.ts:55-57 | the time value is a whole number of milliseconds |
| `SunSector.JulianDate` | src/sun-sector.ts:59-61 | the Julian Date minus 2440587.5, times 86400000, is the Unix time in ms |
| `SunSector.AtJulianDate` | src/sun-sector.ts:45-48 | keeps the location; the resulting view's Julian Date is within 1/86400000 day of the requested one |
| `SunSector.JulianDateRoundTrip` | src/sun-sector.ts:45-61 | `atJulianDate(julianDate)` gives the view back; `julianDate(atJulianDate(jd)) == jd` exactly when jd names a whole millisecond (both directions); Unix time 0 is Julian Date 2440587.5 |
| `SunSector.EphemerisDay` | src/sun-sector.ts:63-66 | days since the instant 2000-01-01T12:00Z (946728000000 ms), plus the 69184 ms Terrestrial Time offset |
| `SunSector.EphemerisDayElapsed` | src/sun-sector.ts:63-66 | the ephemeris day advances by exactly one per 86400000 ms, and equals the Terrestrial Time offset at Julian Date 2451545 |
| `SunSector.MeanAnomaly` | src/sun-sector.ts:68-75 | lies in [0, 360) and differs from 357.5291 + 0.98560028·d by a whole number of turns |
| `SunSector.EquationOfCenter` | src/sun-sector.ts:77-89 | \|C\| ≤ 1.9148 + 0.02 + 0.0003 = 1.9351 degrees |
| `SunSector.TrueAnomaly` | src/sun-sector.ts:91-93 | lies in [0, 360) and differs from mean anomaly + equation of center by a whole number of turns |
| `SunSector.EclipticLongitude` | src/sun-sector.ts:95-104 | lies in [0, 360) and differs from 102.9373 + true anomaly + 180 by a whole number of turns |
| `SunSector.Sun` | src/sun-sector.ts:106-116 | declination in [-90, 90] and right ascension in [-180, 180] |
| `SunSector.EquatorialCoordinates` | src/sun-sector.ts:106-116 | for any ecliptic longitude, the asin argument is in its domain; declination in [-90, 90], right ascension in [-180, 180] |
| `SunSector.Declination` | src/sun-sector.ts:118-120 | lies in [-90, 90] |
| `SunSector.RightAscension` | src/sun-sector.ts:122-124 | lies in [-180, 180] |
| `SunSector.SiderealTime` | src/sun-sector.ts:126-136 | lies in [0, 360) and differs from 280.147 + 360.9856235·d + longitude by a whole number of turns |
| `SunSector.HourAngle` | src/sun-sector.ts:138-144 | lies in [-180, 180) and equals the reference normalisation mod(st - ra + 180, 360) - 180 of the raw difference |
| `SunSector.Angles` | src/sun-sector.ts:146-161 | azimuth in [0, 360) and elevation in [-90, 90] |
| `SunSector.AzimuthAt` | src/sun-sector.ts:150-156 | the azimuth, turned by 180 degrees to measure from north, lies in [0, 360) |
| `SunSector.ElevationAt` | src/sun-sector.ts:157-159 | the elevation exists (is not NaN) and lies in [-90, 90] |
| `SunSector.Azimuth` | src/sun-sector.ts:163-165 | lies in [0, 360) |
| `SunSector.Elevation` | src/sun-sector.ts:167-169 | lies in [-90, 90] |
| `SunSector.SunDependsOnlyOnInstant` | src/sun-sector.ts:63-124 | views at the same instant agree on ephemeris day, mean anomaly, ecliptic longitude, declination, right ascension and equation of time, whatever their location |
| `SunSector.SameMeridian` | src/sun-sector.ts:126-212 | longitudes 360 degrees apart agree on sidereal time, hour angle, azimuth, elevation and transit estimate |
| `SunSector.SameMeridianSiderealTime` | src/sun-sector.ts:126-136 | longitudes 360 degrees apart give the same sidereal time |
| `SunSector.SameMeridianTransit` | src/sun-sector.ts:202-212 | longitudes 360 degrees apart give the same transit estimate |
| `SunSector.EquationOfTime` | src/sun-sector.ts:171-179 | \|equation of time\| ≤ 0.0053472 + 0.006875 = 0.0122222 days |
| `SunSector.TransitEstimate` | src/sun-sector.ts:202-212 | estimate − 2451545 − equation of time + longitude/360 is the half-up rounded value of ephemeris day + longitude/360; the estimate lies within 0.5 + 0.0122222 days of the Julian Date plus 69184/86400000 |
| `SunSector.SolarTransit` | src/sun-sector.ts:202-212 | keeps the location; its Julian Date is within 1/86400000 day of the transit estimate |
| `SunSector.HorizonCosineAt` | src/sun-sector.ts:214-220 | the acos argument exists exactly when cos(lat)·cos(dec) ≠ 0, where the host divides by zero; then it is the cos(H) that solves sin(-0.83°) = sin(lat)·sin(dec) + cos(lat)·cos(dec)·cos(H) |
| `SunSector.HorizonHourAngle` | src/sun-sector.ts:214-223 | defined exactly when cos(lat)·cos(dec) ≠ 0 (by `HorizonCosineAt`) and the acos argument lies in [-1, 1] (else polar day or night); then it lies in [0, 180] |
| `SunSector.SunTimes` | src/sun-sector.ts:225-246 | noon is the transit's instant; rise and set exist exactly when the transit's horizon hour angle does, and then rise ≤ noon ≤ set with each within half a day of noon |
| `SunSector.RiseNoonSet` | src/sun-sector.ts:238-245 | for a horizon hour angle in [0, 180], rise ≤ noon ≤ set, each gap at most 43200000 ms; without one, rise and set are missing and noon is kept |
| `SunSector.RiseNoonSetSymmetric` | src/sun-sector.ts:238-239 | rise and set are requested at noon ∓ horizonHourAngle/360 days, an offset of at most half a day, and each lands within 1 ms of its request |

## Left out

- `Math.Tan` has no contract: the model gives tan no range fact, since it is
  unbounded.
- Floating point: all arithmetic is over `real`. IEEE-754 rounding, signed
  zeros and NaN propagation are not modelled, except where a formula has no
  value at all. Those cases are `Asin`/`Acos` outside [-1, 1], and
  `HorizonHourAngle` dividing by zero or taking acos out of range.
- `Math.Mod` and `Math.Rem` require a nonzero modulus. The host yields NaN
  there, and every caller passes 360.
- `SunSector.AtJulianDate` truncates to whole milliseconds, as a host `Date`
  does. The range limit of a `Date` (±8.64e15 ms, beyond which it is Invalid)
  is not modelled.
- `SunSector.JulianDateRoundTrip` is exact only for Julian Dates that name a
  whole millisecond, because instants are integers. For every other Julian
  Date, `AtJulianDate` states the 1/86400000-day bound.
- The clock read for a missing date (src/sun-sector.ts:36) becomes the `now`
  parameter of `From`.
- Parsing date strings in `at` is not modelled: the instant is taken as a
  number.
- The `atHourAngle` refinement loop (src/sun-sector.ts:188-200) is not
  modelled. Its callers are commented out, and its termination rests on
  floating-point convergence.
- The commented-out alternative formulas for the equation of center and the
  ecliptic longitude are not modelled.
- `SunSector.RiseNoonSetSymmetric` does not promise that noon − rise equals
  set − noon. Each is truncated to whole milliseconds separately, so the two
  gaps can differ by 1 ms; with noon at 100 ms and an offset of 0.5 ms they are
  1 and 0. The lemma therefore bounds each time within 1 ms of its request.
- The `rise`, `noon` and `set` getters (src/sun-sector.ts:248-258) are the
  fields of the `Times` value that `SunTimes` returns.
- Accuracy against reference ephemeris values and concrete identities such as
  asin(sin 90°) = 90° or atan2(1, 1) = 45°. These need the actual
  transcendental functions, not their ranges.
- The type-level "flavor" trick beyond the distinct `Degrees`/`Radians`
  newtypes, and the getters' lazy recomputation. The model uses pure
  functions.
