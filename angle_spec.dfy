/** The arithmetic behind an angle held both as radians and as whole turns,
    degrees, minutes and seconds: the two conversions between the forms, the
    whole-degree figure printed by the degree format, and the fold of a
    parsed degree count into turns and degrees. */
module AngleSpec {

  /** `M_PI`, written out with the digits of the C macro. */
  const Pi: real := 3.14159265358979323846

  /** The four integer fields of an angle. */
  datatype Fields = Fields(turns: int, degrees: int, minutes: int, seconds: int)

  /** The constants `ANGLE_45`, `ANGLE_90`, `ANGLE_180` and `ANGLE_360`, by their fields. */
  const Angle45: Fields := Fields(0, 45, 0, 0)
  const Angle90: Fields := Fields(0, 90, 0, 0)
  const Angle180: Fields := Fields(0, 180, 0, 0)
  const Angle360: Fields := Fields(1, 0, 0, 0)

  function Abs(x: real): (r: real)
    ensures r >= 0.0 && (r == x || r == -x)
  {
    if x < 0.0 then -x else x
  }

  /** degrees + minutes / 60 + seconds / 3600: the fields below one turn. */
  function Sexagesimal(f: Fields): real
  {
    f.degrees as real + f.minutes as real / 60.0 + f.seconds as real / 3600.0
  }

  /** `calcRadians`: the sexagesimal part scaled by pi / 180, plus two pi per turn. */
  function RadiansOf(f: Fields): (r: real)
    ensures f.minutes == 0 && f.seconds == 0 ==> r == Pi * (f.degrees + 360 * f.turns) as real / 180.0
  {
    Pi * Sexagesimal(f) / 180.0 + f.turns as real * Pi * 2.0
  }

  /** 180 r / pi: the angle in decimal degrees. */
  function DegreesOf(r: real): real
  {
    180.0 * (r / Pi)
  }

  /** Whole turns in |D|: the floor of |D| / 360. */
  function TurnsOf(d: real): int
  {
    (Abs(d) / 360.0).Floor
  }

  /** D with its whole turns removed, towards zero: added back for D < 0,
      taken off otherwise. */
  function Folded(d: real): real
  {
    if d < 0.0 then d + (TurnsOf(d) * 360) as real else d - (TurnsOf(d) * 360) as real
  }

  /** `calcDegrees`: the fields of an angle of r radians. Degrees is the
      floor of the folded value; minutes and seconds are the floors of the
      sexagesimal fractions that follow it. */
  function FieldsOf(r: real): (f: Fields)
    ensures f.turns >= 0
    ensures -360 <= f.degrees <= 359
    ensures 0 <= f.minutes <= 59 && 0 <= f.seconds <= 59
  {
    var d := DegreesOf(r);
    var folded := Folded(d);
    var deg := folded.Floor;
    var minute := Abs((folded - deg as real) * 60.0);
    var min := minute.Floor;
    Fields(TurnsOf(d), deg, min, ((minute - min as real) * 60.0).Floor)
  }

  /** The folded value lies strictly inside one turn on either side of zero,
      keeps the sign of D, and differs from D by whole turns. */
  lemma {:induction false} FoldedBounds(d: real)
    ensures TurnsOf(d) >= 0
    ensures -360.0 < Folded(d) < 360.0
    ensures d >= 0.0 ==> 0.0 <= Folded(d) && Folded(d) + (TurnsOf(d) * 360) as real == d
    ensures d < 0.0 ==> Folded(d) <= 0.0 && Folded(d) - (TurnsOf(d) * 360) as real == d
    ensures (TurnsOf(d) * 360) as real <= Abs(d) < ((TurnsOf(d) + 1) * 360) as real
  {
    var t := TurnsOf(d);
    assert t as real <= Abs(d) / 360.0 < t as real + 1.0;
    assert (t * 360) as real == t as real * 360.0;
    assert ((t + 1) * 360) as real == t as real * 360.0 + 360.0;
  }

  /** The fields drop less than one second of arc from the folded value:
      D folded = Sexagesimal(fields) + e with 0 <= e < 1/3600. */
  lemma {:induction false} TruncationBound(r: real)
    ensures var f, folded := FieldsOf(r), Folded(DegreesOf(r));
      Sexagesimal(f) <= folded < Sexagesimal(f) + 1.0 / 3600.0
  {
    var folded := Folded(DegreesOf(r));
    var deg := folded.Floor;
    var frac := folded - deg as real;
    assert 0.0 <= frac < 1.0;
    var minute := frac * 60.0;
    assert Abs(frac * 60.0) == minute;
    var min := minute.Floor;
    var sec := ((minute - min as real) * 60.0).Floor;
    assert sec as real <= (minute - min as real) * 60.0 < sec as real + 1.0;
    assert FieldsOf(r) == Fields(TurnsOf(DegreesOf(r)), deg, min, sec);
    assert folded == deg as real + minute / 60.0;
    assert minute / 60.0 == min as real / 60.0 + (minute - min as real) * 60.0 / 3600.0;
  }

  /** `calcRadians` after `calcDegrees`, for r >= 0: the result is r less a
      truncation of under one second of arc (pi / 648000). */
  lemma {:induction false} RoundTripNonNegative(r: real)
    requires r >= 0.0
    ensures r - Pi / 648000.0 < RadiansOf(FieldsOf(r)) <= r
  {
    var d, f := DegreesOf(r), FieldsOf(r);
    FoldedBounds(d);
    TruncationBound(r);
    RadiansOfFolded(r, d, f, d - (f.turns * 360) as real);
  }

  /** For r < 0 the turns are added back with the wrong sign: `calcRadians`
      after `calcDegrees` is r + 4 pi turns less the same truncation, so the
      round trip holds exactly when |D| < 360. */
  lemma {:induction false} RoundTripNegative(r: real)
    requires r < 0.0
    ensures var f := FieldsOf(r);
      r + 4.0 * Pi * f.turns as real - Pi / 648000.0 < RadiansOf(f) <= r + 4.0 * Pi * f.turns as real
    ensures FieldsOf(r).turns == 0 <==> DegreesOf(r) > -360.0
  {
    var d, f := DegreesOf(r), FieldsOf(r);
    FoldedBounds(d);
    TruncationBound(r);
    RadiansOfFolded(r, d, f, d + (f.turns * 360) as real);
  }

  /** RadiansOf expressed through the folded value it was truncated from. */
  lemma RadiansOfFolded(r: real, d: real, f: Fields, folded: real)
    requires d == DegreesOf(r)
    requires Sexagesimal(f) <= folded < Sexagesimal(f) + 1.0 / 3600.0
    ensures Pi * folded / 180.0 - Pi / 648000.0 + f.turns as real * Pi * 2.0 < RadiansOf(f)
    ensures RadiansOf(f) <= Pi * folded / 180.0 + f.turns as real * Pi * 2.0
    ensures Pi * d / 180.0 == r
  {
  }

  /** The round trip fails for a negative angle of at least one turn: -400
      degrees becomes one turn and -40 degrees, which `calcRadians` reads as
      320 degrees, two turns above the original. */
  lemma NegativeRoundTripFails(r: real)
    requires r == -400.0 * Pi / 180.0
    ensures FieldsOf(r) == Fields(1, -40, 0, 0)
    ensures RadiansOf(FieldsOf(r)) == 320.0 * Pi / 180.0
  {
    assert DegreesOf(r) == -400.0;
    assert TurnsOf(-400.0) == 1;
    assert Folded(-400.0) == -40.0;
  }

  /** Fields `calcDegrees` can produce again unchanged: minutes and seconds in
      [0, 59], degrees in [-359, 359], non-negative turns, and negative
      degrees only without turns. */
  predicate NormalForm(f: Fields)
  {
    f.turns >= 0 && -359 <= f.degrees <= 359 && 0 <= f.minutes <= 59 && 0 <= f.seconds <= 59
    && (f.turns == 0 || f.degrees >= 0)
  }

  /** `calcDegrees` after `calcRadians` restores fields in normal form. */
  lemma {:induction false} FieldsOfRadiansOf(f: Fields)
    requires NormalForm(f)
    ensures FieldsOf(RadiansOf(f)) == f
  {
    var v := Sexagesimal(f);
    var d := DegreesOf(RadiansOf(f));
    assert d == v + (f.turns * 360) as real;
    var part := f.minutes as real / 60.0 + f.seconds as real / 3600.0;
    assert 0.0 <= part < 1.0;
    if f.turns == 0 {
      assert -360.0 < d < 360.0;
      assert TurnsOf(d) == 0;
    } else {
      assert 0.0 <= v < 360.0;
      assert (Abs(d) / 360.0).Floor == f.turns by {
        assert Abs(d) / 360.0 == f.turns as real + v / 360.0;
      }
    }
    assert Folded(d) == v;
    assert v.Floor == f.degrees;
    assert Abs((v - f.degrees as real) * 60.0) == f.minutes as real + f.seconds as real / 60.0;
    assert (f.minutes as real + f.seconds as real / 60.0).Floor == f.minutes;
  }

  /** `ANGLE_45`, `ANGLE_90` and `ANGLE_180` lie within the first half turn
      with no whole turn; `ANGLE_360` is one whole turn. */
  lemma ConstantRadians()
    ensures RadiansOf(Angle45) == Pi / 4.0 && RadiansOf(Angle90) == Pi / 2.0
    ensures RadiansOf(Angle180) == Pi && RadiansOf(Angle360) == 2.0 * Pi
    ensures Angle45.turns == 0 && Angle90.turns == 0 && Angle180.turns == 0 && Angle360.turns == 1
  {
  }

  /** The whole-degree figure of `format(auDegrees)` as written: the turns are
      added for positive degrees and subtracted otherwise, zero included. */
  function FormatDegreesAsWritten(f: Fields): (deg: int)
    ensures f.degrees > 0 ==> deg == FormatDegrees(f)
    ensures f.degrees == 0 ==> deg == -FormatDegrees(f)
  {
    f.degrees + (if f.degrees > 0 then 1 else -1) * f.turns * 360
  }

  /** As written, `ANGLE_360`, whose radians are 2 pi, prints -360 degrees. */
  lemma FormatAngle360AsWritten()
    ensures RadiansOf(Angle360) == 2.0 * Pi
    ensures FormatDegreesAsWritten(Angle360) == -360
  {
  }

  /** The whole-degree figure with zero degrees counted as positive, the
      reading `calcRadians` gives such fields. */
  function FormatDegrees(f: Fields): (deg: int)
    ensures f.turns >= 0 && 0 <= f.degrees < 360 ==> deg >= 0 && deg / 360 == f.turns && deg % 360 == f.degrees
    ensures f.turns >= 0 && -360 < f.degrees < 0 ==> deg < 0 && (-deg) / 360 == f.turns && (-deg) % 360 == -f.degrees
  {
    f.degrees + (if f.degrees >= 0 then 1 else -1) * f.turns * 360
  }

  /** For an angle of r >= 0 radians, the corrected figure is the floor of
      the angle in degrees, full turns included; in particular `ANGLE_360`
      prints 360. */
  lemma {:induction false} FormatDegreesOfRadians(r: real)
    requires r >= 0.0
    ensures FormatDegrees(FieldsOf(r)) == DegreesOf(r).Floor
    ensures FormatDegrees(Angle360) == 360
  {
    var d := DegreesOf(r);
    FoldedBounds(d);
    var t := TurnsOf(d);
    assert Folded(d).Floor + t * 360 == d.Floor;
  }

  /** For degrees > 0 the two figures agree; they differ only when degrees
      is zero and there is at least one turn. */
  lemma FormatAgreement(f: Fields)
    ensures FormatDegreesAsWritten(f) == FormatDegrees(f) <==> f.degrees != 0 || f.turns == 0
  {
  }

  /** A short int's value of an integer: the 16-bit two's-complement wrap. */
  function ToShort(n: int): (r: int)
    ensures -32768 <= r <= 32767 && (r - n) % 65536 == 0
    ensures -32768 <= n <= 32767 ==> r == n
  {
    (n + 32768) % 65536 - 32768
  }

  /** `validateString`'s fold of the parsed degree count as written: the
      turns are subtracted whenever there is one, whatever the sign, and the
      difference is narrowed to the short `m_degreesValid`. */
  function FoldDegreesAsWritten(intDeg: int): (deg: int)
    ensures -32768 <= deg <= 32767
    ensures ParsedTurns(intDeg) == 0 ==> deg == ToShort(intDeg)
    ensures intDeg >= 0 ==> deg == ToShort(intDeg - ParsedTurns(intDeg) * 360)
  {
    var turns := ParsedTurns(intDeg);
    ToShort(if turns > 0 then intDeg - turns * 360 else intDeg + turns * 360)
  }

  /** As written, -400 degrees folds to -760 and -760 to -1480: outside
      [-359, 359], and not the count by any number of turns added back. A
      short count of -20000 folds to -39800, which wraps to 25736. */
  lemma FoldNegativeAsWritten()
    ensures FoldDegreesAsWritten(-400) == -760
    ensures ParsedTurns(-400) == 1
    ensures FoldDegreesAsWritten(-760) == -1480
    ensures FoldDegreesAsWritten(-20000) == 25736
  {
    assert ParsedTurns(-20000) == 55;
  }

  /** The turns `validateString` takes from the parsed degree count:
      |intDeg| div 360. */
  function ParsedTurns(intDeg: int): (t: nat)
    ensures intDeg >= 0 ==> t * 360 <= intDeg < (t + 1) * 360
    ensures intDeg < 0 ==> t * 360 <= -intDeg < (t + 1) * 360
  {
    (if intDeg < 0 then -intDeg else intDeg) / 360
  }

  /** The fold towards zero, as `calcDegrees` folds: the turns are added back
      for a negative count and taken off otherwise. */
  function FoldDegrees(intDeg: int): (deg: int)
    ensures -360 < deg < 360
    ensures intDeg >= 0 ==> 0 <= deg && ParsedTurns(intDeg) * 360 + deg == intDeg
    ensures intDeg < 0 ==> deg <= 0 && deg - ParsedTurns(intDeg) * 360 == intDeg
  {
    var turns := ParsedTurns(intDeg);
    if intDeg < 0 then intDeg + turns * 360 else intDeg - turns * 360
  }

  /** The two folds agree on non-negative counts and on counts above -360. */
  lemma FoldAgreement(intDeg: int)
    requires intDeg > -360
    ensures FoldDegreesAsWritten(intDeg) == FoldDegrees(intDeg)
  {
  }

  /** The fields the corrected fold gives a parsed degree count print that
      count back under the corrected format, except for a negative whole
      number of turns, whose sign the fields cannot carry. */
  lemma FoldFormatsBack(intDeg: int, minutes: int, seconds: int)
    requires intDeg >= 0 || intDeg % 360 != 0
    ensures FormatDegrees(Fields(ParsedTurns(intDeg), FoldDegrees(intDeg), minutes, seconds)) == intDeg
  {
  }

  /** The zero angle: both conversions map it to zero. */
  lemma ZeroAngle()
    ensures RadiansOf(Fields(0, 0, 0, 0)) == 0.0
    ensures FieldsOf(0.0) == Fields(0, 0, 0, 0)
  {
    FieldsOfRadiansOf(Fields(0, 0, 0, 0));
  }
}
