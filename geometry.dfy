/**
 * Distances on the sphere: the unit table and `radiansToLength` of the
 * geometry section, and `distance` with its trigonometry left abstract.
 */
module Geometry {
  import opened Wrappers

  /** A position as the source keeps it: a bare pair of numbers, not labelled.
      `parsePosition` puts the latitude first, while the haversine reads
      component 1 as the latitude; both are kept as written. */
  type Coord = (real, real)

  /** `parsePosition(lat, long)`, over numbers the feed decoder already parsed. */
  function ParsePosition(lat: real, long: real): (c: Coord)
    ensures c.0 == lat && c.1 == long
  {
    (lat, long)
  }

  const EARTH_RADIUS: real := 6371008.8

  /** `Math.PI` */
  const PI: real := 3.141592653589793

  /** `Factors`: units per radian of arc, under each name of the `Units` union. */
  const Factors: map<string, real> := map[
    "centimeters" := EARTH_RADIUS * 100.0,
    "centimetres" := EARTH_RADIUS * 100.0,
    "degrees" := 360.0 / (2.0 * PI),
    "feet" := EARTH_RADIUS * 3.28084,
    "inches" := EARTH_RADIUS * 39.37,
    "kilometers" := EARTH_RADIUS / 1000.0,
    "kilometres" := EARTH_RADIUS / 1000.0,
    "meters" := EARTH_RADIUS,
    "metres" := EARTH_RADIUS,
    "miles" := EARTH_RADIUS / 1609.344,
    "millimeters" := EARTH_RADIUS * 1000.0,
    "millimetres" := EARTH_RADIUS * 1000.0,
    "nauticalmiles" := EARTH_RADIUS / 1852.0,
    "radians" := 1.0,
    "yards" := EARTH_RADIUS * 1.0936
  ]

  /** The members of the `Units` union, as the rest of the model names them. */
  datatype Unit =
    | Centimeters | Centimetres | Degrees | Feet | Inches | Kilometers | Kilometres | Meters
    | Metres | Miles | Millimeters | Millimetres | NauticalMiles | Radians | Yards

  /** The string each member of the union is. */
  function UnitName(u: Unit): string {
    match u
    case Centimeters => "centimeters"
    case Centimetres => "centimetres"
    case Degrees => "degrees"
    case Feet => "feet"
    case Inches => "inches"
    case Kilometers => "kilometers"
    case Kilometres => "kilometres"
    case Meters => "meters"
    case Metres => "metres"
    case Miles => "miles"
    case Millimeters => "millimeters"
    case Millimetres => "millimetres"
    case NauticalMiles => "nauticalmiles"
    case Radians => "radians"
    case Yards => "yards"
  }

  /** The factor of each member of the union. */
  function Factor(u: Unit): (f: real)
    ensures f > 0.0
  {
    match u
    case Centimeters | Centimetres => EARTH_RADIUS * 100.0
    case Degrees => 360.0 / (2.0 * PI)
    case Feet => EARTH_RADIUS * 3.28084
    case Inches => EARTH_RADIUS * 39.37
    case Kilometers | Kilometres => EARTH_RADIUS / 1000.0
    case Meters | Metres => EARTH_RADIUS
    case Miles => EARTH_RADIUS / 1609.344
    case Millimeters | Millimetres => EARTH_RADIUS * 1000.0
    case NauticalMiles => EARTH_RADIUS / 1852.0
    case Radians => 1.0
    case Yards => EARTH_RADIUS * 1.0936
  }

  /** The table has an entry under the name of every member of the union, and the entry
      is that member's factor (`FactorsHasOnlyUnits` gives the converse). */
  lemma FactorsTable(u: Unit)
    ensures UnitName(u) in Factors && Factors[UnitName(u)] == Factor(u)
  {
  }

  /** Every key of the table is the name of a member of the union. */
  lemma FactorsHasOnlyUnits(name: string)
    requires name in Factors
    ensures exists u :: UnitName(u) == name
  {
    if name == "centimeters" { assert UnitName(Centimeters) == name; }
    else if name == "centimetres" { assert UnitName(Centimetres) == name; }
    else if name == "degrees" { assert UnitName(Degrees) == name; }
    else if name == "feet" { assert UnitName(Feet) == name; }
    else if name == "inches" { assert UnitName(Inches) == name; }
    else if name == "kilometers" { assert UnitName(Kilometers) == name; }
    else if name == "kilometres" { assert UnitName(Kilometres) == name; }
    else if name == "meters" { assert UnitName(Meters) == name; }
    else if name == "metres" { assert UnitName(Metres) == name; }
    else if name == "miles" { assert UnitName(Miles) == name; }
    else if name == "millimeters" { assert UnitName(Millimeters) == name; }
    else if name == "millimetres" { assert UnitName(Millimetres) == name; }
    else if name == "nauticalmiles" { assert UnitName(NauticalMiles) == name; }
    else if name == "radians" { assert UnitName(Radians) == name; }
    else { assert UnitName(Yards) == name; }
  }

  /** The unit `radiansToLength` falls back to when none is given. */
  const DEFAULT_UNITS: Unit := Kilometers

  /** `radiansToLength(radians, units)`: `units` absent means kilometres; a name the
      table does not know throws `<units> units is invalid`. */
  function RadiansToLength(radians: real, units: Option<string>): (r: Result<real, string>)
    ensures r.Failure? <==> units.GetOr(UnitName(DEFAULT_UNITS)) !in Factors
    ensures r.Failure? ==> r.error == units.GetOr(UnitName(DEFAULT_UNITS)) + " units is invalid"
  {
    var name := units.GetOr(UnitName(DEFAULT_UNITS));
    if name !in Factors then Failure(name + " units is invalid")
    else Success(radians * Factors[name])
  }

  /** The central angle, in radians, between two positions: the haversine part of
      `distance`, whose trigonometry is not modelled. */
  type CentralAngle = (Coord, Coord) -> real

  /** The `units` option of `distance`, as the name it passes on. */
  function NameOf(units: Option<Unit>): Option<string> {
    match units
    case None => None
    case Some(u) => Some(UnitName(u))
  }

  /** `distance(from, to, {units})` */
  function Distance(angle: CentralAngle, from: Coord, to: Coord, units: Option<string>): (r: Result<real, string>)
    ensures r.Failure? <==> units.GetOr(UnitName(DEFAULT_UNITS)) !in Factors
    ensures r.Success? ==> r.value == angle(from, to) * Factors[units.GetOr(UnitName(DEFAULT_UNITS))]
  {
    RadiansToLength(angle(from, to), units)
  }

  /** A member of the `Units` union is always found in the table: the length is the
      angle times the unit's factor. */
  lemma RadiansToLengthOfUnit(radians: real, u: Unit)
    ensures RadiansToLength(radians, Some(UnitName(u))) == Success(radians * Factor(u))
  {
    FactorsTable(u);
    LookupSucceeds(radians, UnitName(u), Factor(u));
  }

  /** A name found in the table converts by its entry. */
  lemma LookupSucceeds(radians: real, name: string, f: real)
    requires name in Factors && Factors[name] == f
    ensures RadiansToLength(radians, Some(name)) == Success(radians * f)
  {
  }

  /** `distance` with a member of the `Units` union, or none: the central angle times the
      unit's factor, kilometres by default. */
  function Measure(angle: CentralAngle, from: Coord, to: Coord, units: Option<Unit>): real {
    angle(from, to) * Factor(units.GetOr(DEFAULT_UNITS))
  }

  /** `distance` never throws for a member of the `Units` union or for no unit, and
      then returns `Measure`. */
  lemma MeasureIsDistance(angle: CentralAngle, from: Coord, to: Coord, units: Option<Unit>)
    ensures Distance(angle, from, to, NameOf(units)) == Success(Measure(angle, from, to, units))
  {
    RadiansToLengthOfUnit(angle(from, to), units.GetOr(DEFAULT_UNITS));
  }

  /** Every factor in the table is positive. */
  lemma FactorIsPositive(name: string)
    requires name in Factors
    ensures Factors[name] > 0.0
  {
    FactorsHasOnlyUnits(name);
    var u :| UnitName(u) == name;
    FactorsTable(u);
  }

  /** Lengths of the same angle in two units differ exactly by the ratio of their
      factors. Every name in the table is some unit's name (`FactorsHasOnlyUnits`) and
      every other name fails, so this covers every pair of successful conversions. */
  lemma UnitConversion(radians: real, u: Unit, v: Unit, lu: real, lv: real)
    requires RadiansToLength(radians, Some(UnitName(u))) == Success(lu)
    requires RadiansToLength(radians, Some(UnitName(v))) == Success(lv)
    ensures lv == lu * (Factor(v) / Factor(u))
  {
    RadiansToLengthOfUnit(radians, u);
    RadiansToLengthOfUnit(radians, v);
    Rescale(radians, Factor(u), Factor(v), lu, lv);
  }

  lemma Rescale(x: real, fu: real, fv: real, lu: real, lv: real)
    requires fu > 0.0 && lu == x * fu && lv == x * fv
    ensures lv == lu * (fv / fu)
  {
    calc {
      x * fu * (fv / fu);
      x * (fu * (fv / fu));
      { assert fu * (fv / fu) == fv; }
      x * fv;
    }
  }

  /** Measuring in any unit orders two pairs of positions as their central angles are ordered. */
  lemma {:induction false} MeasureOrdersLikeAngle(angle: CentralAngle, a: Coord, b: Coord, c: Coord, d: Coord, u: Option<Unit>)
    ensures Measure(angle, a, b, u) < Measure(angle, c, d, u) <==> angle(a, b) < angle(c, d)
  {
    var f := Factor(u.GetOr(DEFAULT_UNITS));
    assert Measure(angle, a, b, u) == angle(a, b) * f;
    assert Measure(angle, c, d, u) == angle(c, d) * f;
    ScaleKeepsOrder(angle(a, b), angle(c, d), f);
  }

  lemma ScaleKeepsOrder(x: real, y: real, f: real)
    requires f > 0.0
    ensures x * f < y * f <==> x < y
  {
    if x < y {
      assert (y - x) * f > 0.0;
    } else {
      assert (x - y) * f >= 0.0;
    }
  }
}
