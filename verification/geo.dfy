/** `GeoAdapter.parse` of 4/1/index.js: "lat,lng" becomes a pair of
    coordinates, each kept only when it is a finite number within its range,
    independently of the other. */
module GeoAdapter {
  import opened Wrappers
  import opened Text
  import opened JsValues

  const MaxLatitude: real := 90.0
  const MaxLongitude: real := 180.0

  /** A coordinate field: a number, or the string 'INVALID'. */
  datatype Coordinate = Invalid | Degrees(value: real)

  datatype Position = Position(latitude: Coordinate, longitude: Coordinate)

  /** `Number.isFinite(v) && v >= -bound && v <= bound ? v : 'INVALID'`. */
  function Checked(n: Option<real>, bound: real): (c: Coordinate)
    ensures c.Degrees? <==> n.Some? && -bound <= n.value <= bound
    ensures c.Degrees? ==> c.value == n.value
  {
    if n.Some? && n.value >= -bound && n.value <= bound then Degrees(n.value) else Invalid
  }

  /** `parse(input)`. */
  function Parse(input: JsValue, num: ToNumber): (r: Position)
    ensures !input.Str? ==> r == Position(Invalid, Invalid)
    ensures input.Str? && Count(input.s, ',') != 1 ==> r == Position(Invalid, Invalid)
    ensures r.latitude.Degrees? ==> -MaxLatitude <= r.latitude.value <= MaxLatitude
    ensures r.longitude.Degrees? ==> -MaxLongitude <= r.longitude.value <= MaxLongitude
  {
    if !input.Str? then Position(Invalid, Invalid)
    else
      var parts := Split(input.s, ',');
      SplitSpec(input.s, ',');
      if |parts| != 2 then Position(Invalid, Invalid)
      else
        var lat := num(Str(Trim(parts[0])));
        var lng := num(Str(Trim(parts[1])));
        Position(Checked(lat, MaxLatitude), Checked(lng, MaxLongitude))
  }

  /** With exactly one comma, latitude is judged from the trimmed text before
      it and longitude from the trimmed text after it. */
  lemma ParsePair(a: string, b: string, num: ToNumber)
    requires ',' !in a && ',' !in b
    ensures Parse(Str(a + "," + b), num) ==
      Position(Checked(num(Str(Trim(a))), MaxLatitude), Checked(num(Str(Trim(b))), MaxLongitude))
  {
    var s := a + "," + b;
    assert s[..|a|] == a && s[|a| + 1..] == b && s[|a|] == ',';
    SplitTwo(s, ',', |a|);
  }

  /** The two coordinates are judged independently: changing the longitude
      text never changes the latitude, and the other way round. */
  lemma CoordinatesIndependent(a: string, b: string, a': string, b': string, num: ToNumber)
    requires ',' !in a && ',' !in b && ',' !in a' && ',' !in b'
    ensures Parse(Str(a + "," + b), num).latitude == Parse(Str(a + "," + b'), num).latitude
    ensures Parse(Str(a + "," + b), num).longitude == Parse(Str(a' + "," + b), num).longitude
  {
    ParsePair(a, b, num);
    ParsePair(a, b', num);
    ParsePair(a', b, num);
  }

  /** The bounds are inclusive: a boundary value is kept. */
  lemma BoundsInclusive(a: string, b: string, num: ToNumber)
    requires ',' !in a && ',' !in b
    requires num(Str(Trim(a))) == Some(-90.0) && num(Str(Trim(b))) == Some(180.0)
    ensures Parse(Str(a + "," + b), num) == Position(Degrees(-90.0), Degrees(180.0))
  {
    ParsePair(a, b, num);
  }
}
