/**
 Coordinate arithmetic of the extractor: degrees/minutes/seconds to decimal degrees
 (`_convert_gps_coord`) and back with a hemisphere letter (`_decimal_to_dms`), over exact
 reals.
 */
module Gps {
  import opened Wrappers
  import opened Text
  import opened Records

  function Abs(x: real): real {
    if x < 0.0 then -x else x
  }

  /**
   `_convert_gps_coord(values)`, where each element is what `float()` makes of the tag
   value (`None` when it raises). Only the first three elements are read; a failed
   conversion, or no element at all, gives 0.0.
   */
  function ConvertGpsCoord(values: seq<Option<real>>): (r: real)
    ensures |values| >= 3 && values[0].Some? && values[1].Some? && values[2].Some? ==>
      r == values[0].value + values[1].value / 60.0 + values[2].value / 3600.0
    ensures |values| == 2 && values[0].Some? && values[1].Some? ==> r == values[0].value + values[1].value / 60.0
    ensures |values| == 1 && values[0].Some? ==> r == values[0].value
    ensures (exists i :: 0 <= i < |values| && i < 3 && values[i].None?) ==> r == 0.0
    ensures values == [] ==> r == 0.0
  {
    if |values| >= 3 then
      if values[0].Some? && values[1].Some? && values[2].Some? then
        values[0].value + values[1].value / 60.0 + values[2].value / 3600.0
      else 0.0
    else if |values| == 2 then
      if values[0].Some? && values[1].Some? then values[0].value + values[1].value / 60.0 else 0.0
    else if |values| == 1 then
      values[0].GetOr(0.0)
    else 0.0
  }

  /** Elements after the third never matter. */
  lemma ConvertIgnoresTail(values: seq<Option<real>>, extra: seq<Option<real>>)
    requires |values| == 3
    ensures ConvertGpsCoord(values + extra) == ConvertGpsCoord(values)
  {
    assert (values + extra)[..3] == values;
  }

  /** An angle as whole degrees, whole minutes, seconds and a hemisphere letter. */
  datatype Dms = Dms(degrees: nat, minutes: nat, seconds: real, direction: char)

  /** The hemisphere letter of a latitude (N/S) or longitude (E/W). */
  function Hemisphere(decimal: real, isLat: bool): char {
    if decimal < 0.0 then (if isLat then 'S' else 'W') else (if isLat then 'N' else 'E')
  }

  /**
   `_decimal_to_dms(decimal, is_lat)` before rendering: the magnitude split into degrees,
   minutes below 60 and seconds below 60 that add up to it exactly, with N/E for a
   non-negative angle and S/W for a negative one.
   */
  function DecimalToDms(decimal: real, isLat: bool): (d: Dms)
    ensures d.direction == Hemisphere(decimal, isLat)
    ensures (d.direction == 'N' || d.direction == 'E') <==> decimal >= 0.0
    ensures d.minutes < 60 && 0.0 <= d.seconds < 60.0
    ensures d.degrees as real + d.minutes as real / 60.0 + d.seconds / 3600.0 == Abs(decimal)
  {
    var a := Abs(decimal);
    var degrees := a.Floor;
    var minutesDecimal := (a - degrees as real) * 60.0;
    var minutes := minutesDecimal.Floor;
    var seconds := (minutesDecimal - minutes as real) * 60.0;
    Dms(degrees, minutes, seconds, Hemisphere(decimal, isLat))
  }

  /** Converting a well-formed (d, m, s) to decimal degrees and splitting it again returns (d, m, s). */
  lemma DmsRoundTrip(d: nat, m: nat, s: real, isLat: bool)
    requires m < 60 && 0.0 <= s < 60.0
    ensures DecimalToDms(ConvertGpsCoord([Some(d as real), Some(m as real), Some(s)]), isLat)
      == Dms(d, m, s, if isLat then 'N' else 'E')
  {
    var x := ConvertGpsCoord([Some(d as real), Some(m as real), Some(s)]);
    var frac := m as real / 60.0 + s / 3600.0;
    assert x == d as real + frac;
    assert 0.0 <= frac < 1.0;
    assert x.Floor == d;
    var md := (x - d as real) * 60.0;
    assert md == m as real + s / 60.0;
    assert md.Floor == m;
    assert (md - m as real) * 60.0 == s;
  }

  /** `f"{degrees}° {minutes}' {seconds:.2f}\" {direction}"`. */
  function DmsText(host: Host, d: Dms): (t: string)
    ensures |t| > |NatToString(d.degrees)| && t[..|NatToString(d.degrees)|] == NatToString(d.degrees)
    ensures t[|t| - 1] == d.direction
  {
    NatToString(d.degrees) + "° " + NatToString(d.minutes) + "' " + host.fixed(2, d.seconds) + "\" " + [d.direction]
  }
}
