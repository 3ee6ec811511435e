/** The `Angle` value of the geometry kernel: radians kept side by side with
    turns, degrees, minutes and seconds, each form recomputed from the other
    when it changes; and the shared scratch fields the angle-literal check
    fills in, with a recogniser for the literal's grammar. */
module CivilAngle {
  import opened AngleSpec

  datatype Option<T> = None | Some(value: T)

  class Angle {
    /** `m_dblRadians`. */
    var radians: real
    /** `m_turns`, `m_degrees`, `m_minutes`, `m_seconds`; the getters read them. */
    var turns: int
    var degrees: int
    var minutes: int
    var seconds: int

    /** The four integer fields, as one value. */
    function AsFields(): Fields
      reads this
    {
      Fields(turns, degrees, minutes, seconds)
    }

    /** `Angle() = default`: every member at its initialiser, zero. */
    constructor ()
      ensures radians == 0.0 && AsFields() == Fields(0, 0, 0, 0)
    {
      radians, turns, degrees, minutes, seconds := 0.0, 0, 0, 0, 0;
    }

    /** `Angle(double ang)`: stores the radians and derives the fields. */
    constructor FromRadians(ang: real)
      ensures radians == ang && AsFields() == FieldsOf(ang)
    {
      radians := ang;
      new;
      CalcDegrees();
    }

    /** `Angle(turns, deg, min, sec)`: stores the fields and derives the
        radians. The bounded parameter types do not check their arguments on
        construction, so any values are stored. */
    constructor FromFields(t: int, deg: int, min: int, sec: int)
      ensures AsFields() == Fields(t, deg, min, sec) && radians == RadiansOf(AsFields())
    {
      turns, degrees, minutes, seconds := t, deg, min, sec;
      new;
      CalcRadians();
    }

    /** `calcRadians`: the radians the fields denote; the fields stay. */
    method CalcRadians()
      modifies this
      ensures radians == RadiansOf(AsFields())
      ensures AsFields() == old(AsFields())
    {
      radians := degrees as real + minutes as real / 60.0 + seconds as real / 3600.0;
      radians := Pi * radians / 180.0;
      radians := radians + turns as real * Pi * 2.0;
    }

    /** `calcDegrees`: the fields of the stored radians; the radians stay. */
    method CalcDegrees()
      modifies this
      ensures radians == old(radians)
      ensures AsFields() == FieldsOf(radians)
    {
      var decimal := 180.0 * (radians / Pi);
      turns := (Abs(decimal) / 360.0).Floor;
      if decimal < 0.0 {
        decimal := decimal + (turns * 360) as real;
      } else {
        decimal := decimal - (turns * 360) as real;
      }
      degrees := decimal.Floor;
      var minute := Abs((decimal - degrees as real) * 60.0);
      minutes := minute.Floor;
      seconds := ((minute - minutes as real) * 60.0).Floor;
    }

    /** `setTurns`: nothing changes when the value is already stored;
        otherwise only the turns change and the radians are recomputed. */
    method SetTurns(value: int)
      modifies this
      ensures AsFields() == old(AsFields()).(turns := value)
      ensures old(turns) == value ==> radians == old(radians)
      ensures old(turns) != value ==> radians == RadiansOf(AsFields())
    {
      if turns == value {
        return;
      }
      turns := value;
      CalcRadians();
    }

    /** `setDegrees`, as `setTurns` for the degrees. */
    method SetDegrees(value: int)
      modifies this
      ensures AsFields() == old(AsFields()).(degrees := value)
      ensures old(degrees) == value ==> radians == old(radians)
      ensures old(degrees) != value ==> radians == RadiansOf(AsFields())
    {
      if degrees == value {
        return;
      }
      degrees := value;
      CalcRadians();
    }

    /** `setMinutes`, as `setTurns` for the minutes. */
    method SetMinutes(value: int)
      modifies this
      ensures AsFields() == old(AsFields()).(minutes := value)
      ensures old(minutes) == value ==> radians == old(radians)
      ensures old(minutes) != value ==> radians == RadiansOf(AsFields())
    {
      if minutes == value {
        return;
      }
      minutes := value;
      CalcRadians();
    }

    /** `setSeconds`, as `setTurns` for the seconds. */
    method SetSeconds(value: int)
      modifies this
      ensures AsFields() == old(AsFields()).(seconds := value)
      ensures old(seconds) == value ==> radians == old(radians)
      ensures old(seconds) != value ==> radians == RadiansOf(AsFields())
    {
      if seconds == value {
        return;
      }
      seconds := value;
      CalcRadians();
    }

    /** `operator+(Angle, Angle)`: a new angle of the summed radians. */
    method Plus(a: Angle) returns (r: Angle)
      ensures fresh(r)
      ensures r.radians == radians + a.radians && r.AsFields() == FieldsOf(r.radians)
    {
      r := new Angle.FromRadians(radians + a.radians);
    }

    /** `operator+(Angle, double)` and `operator+(double, Angle)`. */
    method PlusReal(x: real) returns (r: Angle)
      ensures fresh(r)
      ensures r.radians == radians + x && r.AsFields() == FieldsOf(r.radians)
    {
      r := new Angle.FromRadians(radians + x);
    }

    /** `operator-(Angle, Angle)`: a new angle of the radians' difference. */
    method Minus(a: Angle) returns (r: Angle)
      ensures fresh(r)
      ensures r.radians == radians - a.radians && r.AsFields() == FieldsOf(r.radians)
    {
      r := new Angle.FromRadians(radians - a.radians);
    }

    /** `operator-(Angle, double)`. */
    method MinusReal(x: real) returns (r: Angle)
      ensures fresh(r)
      ensures r.radians == radians - x && r.AsFields() == FieldsOf(r.radians)
    {
      r := new Angle.FromRadians(radians - x);
    }

    /** `operator-(double, Angle)`: the angle is the subtrahend. */
    method RealMinus(x: real) returns (r: Angle)
      ensures fresh(r)
      ensures r.radians == x - radians && r.AsFields() == FieldsOf(r.radians)
    {
      r := new Angle.FromRadians(x - radians);
    }

    /** Copies every member of `a` into this angle (`*this = a`). */
    method Assign(a: Angle)
      modifies this
      ensures radians == old(a.radians) && AsFields() == old(a.AsFields())
    {
      radians, turns, degrees, minutes, seconds := a.radians, a.turns, a.degrees, a.minutes, a.seconds;
    }

    /** `operator+=(Angle)`: `*this = *this + ang`; `a` may be this angle. */
    method AddAssign(a: Angle)
      modifies this
      ensures radians == old(radians) + old(a.radians) && AsFields() == FieldsOf(radians)
    {
      var sum := Plus(a);
      Assign(sum);
    }

    /** `operator+=(double)`. */
    method AddAssignReal(x: real)
      modifies this
      ensures radians == old(radians) + x && AsFields() == FieldsOf(radians)
    {
      var sum := PlusReal(x);
      Assign(sum);
    }

    /** `operator-=(Angle)`: `*this = *this - ang`; `a` may be this angle. */
    method SubAssign(a: Angle)
      modifies this
      ensures radians == old(radians) - old(a.radians) && AsFields() == FieldsOf(radians)
    {
      var difference := Minus(a);
      Assign(difference);
    }

    /** `operator-=(double)`. */
    method SubAssignReal(x: real)
      modifies this
      ensures radians == old(radians) - x && AsFields() == FieldsOf(radians)
    {
      var difference := MinusReal(x);
      Assign(difference);
    }

    /** The comparison operators, on the radians alone. */
    predicate Equal(a: Angle)
      reads this, a
      ensures a == this ==> Equal(a)
    {
      radians == a.radians
    }

    predicate NotEqual(a: Angle)
      reads this, a
      ensures NotEqual(a) <==> !Equal(a)
    {
      radians != a.radians
    }

    predicate Greater(a: Angle)
      reads this, a
      ensures Greater(a) ==> NotEqual(a)
    {
      radians > a.radians
    }

    predicate GreaterEq(a: Angle)
      reads this, a
      ensures GreaterEq(a) <==> Greater(a) || Equal(a)
    {
      radians >= a.radians
    }

    predicate Less(a: Angle)
      reads this, a
      ensures Less(a) <==> !GreaterEq(a)
    {
      radians < a.radians
    }

    predicate LessEq(a: Angle)
      reads this, a
      ensures LessEq(a) <==> Less(a) || Equal(a)
    {
      radians <= a.radians
    }
  }

  /** The comparisons form one total order: exactly one of less, equal and
      greater holds, and the other operators are their negations and unions. */
  lemma ComparisonsTotal(a: Angle, b: Angle)
    ensures a.Less(b) || a.Equal(b) || a.Greater(b)
    ensures !(a.Less(b) && a.Equal(b)) && !(a.Less(b) && a.Greater(b)) && !(a.Equal(b) && a.Greater(b))
    ensures a.NotEqual(b) <==> !a.Equal(b)
    ensures a.LessEq(b) <==> a.Less(b) || a.Equal(b)
    ensures a.GreaterEq(b) <==> a.Greater(b) || a.Equal(b)
    ensures a.Greater(b) <==> b.Less(a)
  {
  }

  /** Two angles with the same radians compare equal, whatever their fields. */
  lemma EqualIgnoresFields(a: Angle, b: Angle)
    requires a.radians == b.radians && a.AsFields() != b.AsFields()
    ensures a.Equal(b) && !a.Less(b) && !a.Greater(b)
  {
  }

  /** Adding angles commutes, and an angle less itself has no radians. */
  method PlusCommutesMinusCancels(a: Angle, b: Angle) returns (ab: Angle, ba: Angle, aa: Angle)
    ensures ab.radians == ba.radians && ab.AsFields() == ba.AsFields()
    ensures aa.radians == 0.0 && aa.AsFields() == Fields(0, 0, 0, 0)
  {
    ab := a.Plus(b);
    ba := b.Plus(a);
    aa := a.Minus(a);
    ZeroAngle();
  }

  // The angle-literal grammar: an optionally signed run of digits, the
  // degree symbol, then optionally one or two digits (the first 0 to 5) and
  // an apostrophe for the minutes, then optionally the same and a double
  // quote for the seconds, and nothing after.

  predicate IsDigit(c: char)
  {
    '0' <= c <= '9'
  }

  /** A degree symbol the grammar can tell apart from the other tokens. */
  predicate DegreeSymbol(sym: char)
  {
    !IsDigit(sym) && sym != '-' && sym != '\'' && sym != '"'
  }

  predicate AllDigits(s: string)
  {
    forall i :: 0 <= i < |s| ==> IsDigit(s[i])
  }

  /** `atoi` on a run of decimal digits. */
  function DigitsValue(s: string): (n: nat)
    requires AllDigits(s)
    ensures s != [] ==> n % 10 == s[|s| - 1] as int - '0' as int
    ensures (forall i | 0 <= i < |s| :: s[i] == '0') ==> n == 0
  {
    if s == [] then 0 else DigitsValue(s[..|s| - 1]) * 10 + (s[|s| - 1] as int - '0' as int)
  }

  /** The length of the run of digits at the head of s. */
  function DigitRun(s: string): (n: nat)
    ensures n <= |s| && AllDigits(s[..n])
    ensures n < |s| ==> !IsDigit(s[n])
  {
    if s == [] || !IsDigit(s[0]) then 0
    else
      var n := 1 + DigitRun(s[1..]);
      assert s[..n] == [s[0]] + s[1..][..n - 1];
      n
  }

  /** `(?:([0-5]?[0-9])mark)?`: the value of the optional group, and what
      follows it. */
  function OptionalGroup(s: string, mark: char): (p: (Option<nat>, string))
    requires !IsDigit(mark)
    ensures p.0.Some? ==> p.0.value <= 59 && |p.1| < |s|
    ensures p.0.None? ==> p.1 == s
  {
    if |s| >= 2 && IsDigit(s[0]) && s[1] == mark then
      var v: nat := s[0] as int - '0' as int;
      (Some(v), s[2..])
    else if |s| >= 3 && '0' <= s[0] <= '5' && IsDigit(s[1]) && s[2] == mark then
      var v: nat := (s[0] as int - '0' as int) * 10 + (s[1] as int - '0' as int);
      (Some(v), s[3..])
    else
      (None, s)
  }

  /** The three capture groups of a matched literal: the signed degree count
      as `atoi` reads it, and the minutes and seconds when present. */
  datatype Groups = Groups(degrees: int, minutes: Option<nat>, seconds: Option<nat>)

  /** A matched group's bounds: minutes and seconds present only within [0, 59]. */
  predicate GroupsBounded(g: Groups)
  {
    (g.minutes.Some? ==> g.minutes.value <= 59) && (g.seconds.Some? ==> g.seconds.value <= 59)
  }

  /** The recogniser: the groups of s when it matches the grammar, None
      otherwise. A leading minus sign negates the degree count. */
  function Parse(s: string, sym: char): (g: Option<Groups>)
    requires DegreeSymbol(sym)
    ensures g.Some? ==> GroupsBounded(g.value)
  {
    if |s| > 0 && s[0] == '-' then
      var u := ParseUnsigned(s[1..], sym);
      if u.None? then None else Some(u.value.(degrees := -u.value.degrees))
    else ParseUnsigned(s, sym)
  }

  /** The literal after its optional sign: a run of digits, the degree
      symbol, and the marks. */
  function ParseUnsigned(body: string, sym: char): (g: Option<Groups>)
    requires DegreeSymbol(sym)
    ensures g.Some? ==> GroupsBounded(g.value)
  {
    var n := DigitRun(body);
    if n == 0 || n == |body| || body[n] != sym then None
    else WithDegrees(DigitsValue(body[..n]), ParseMarks(body[n + 1..]))
  }

  /** The groups of a degree count and the marks that follow it, if any. */
  function WithDegrees(count: int, marks: Option<(Option<nat>, Option<nat>)>): (g: Option<Groups>)
    requires marks.Some? ==> GroupsBounded(Groups(0, marks.value.0, marks.value.1))
    ensures g.Some? ==> GroupsBounded(g.value)
  {
    if marks.None? then None else Some(Groups(count, marks.value.0, marks.value.1))
  }

  /** What follows the degree symbol: the optional minutes group, the
      optional seconds group, and the end of the literal. */
  function ParseMarks(s: string): (p: Option<(Option<nat>, Option<nat>)>)
    ensures p.Some? ==> GroupsBounded(Groups(0, p.value.0, p.value.1))
  {
    var minutes := OptionalGroup(s, '\'');
    var seconds := OptionalGroup(minutes.1, '"');
    if seconds.1 != [] then None else Some((minutes.0, seconds.0))
  }

  /** The decimal digits of n, without leading zeros. */
  function NatDigits(n: nat): (s: string)
    ensures |s| >= 1 && AllDigits(s)
  {
    if n < 10 then [('0' as int + n) as char]
    else NatDigits(n / 10) + [('0' as int + n % 10) as char]
  }

  /** The literal for a set of groups, in the grammar's form. */
  function Render(g: Groups, sym: char): string
  {
    if g.degrees < 0 then "-" + RenderBody(-g.degrees, g.minutes, g.seconds, sym)
    else RenderBody(g.degrees, g.minutes, g.seconds, sym)
  }

  /** The literal after its sign: the digits of the count, the symbol, the marks. */
  function RenderBody(count: nat, minutes: Option<nat>, seconds: Option<nat>, sym: char): (s: string)
    ensures |s| >= 1 && IsDigit(s[0])
  {
    NatDigits(count) + ([sym] + RenderMarks(minutes, seconds))
  }

  function RenderMarks(minutes: Option<nat>, seconds: Option<nat>): string
  {
    (if minutes.Some? then NatDigits(minutes.value) + "'" else "")
    + (if seconds.Some? then NatDigits(seconds.value) + "\"" else "")
  }

  /** Reading the digits of n gives n back. */
  lemma {:induction false} DigitsValueOfNatDigits(n: nat)
    ensures DigitsValue(NatDigits(n)) == n
  {
    if n >= 10 {
      var s := NatDigits(n);
      assert s[..|s| - 1] == NatDigits(n / 10);
      DigitsValueOfNatDigits(n / 10);
    }
  }

  /** The digit run of digits followed by a non-digit is the digits. */
  lemma {:induction false} DigitRunOfDigits(ds: string, rest: string)
    requires AllDigits(ds) && (rest == [] || !IsDigit(rest[0]))
    ensures DigitRun(ds + rest) == |ds|
  {
    if ds != [] {
      assert (ds + rest)[1..] == ds[1..] + rest;
      DigitRunOfDigits(ds[1..], rest);
    }
  }

  /** A group rendered from a value of at most 59 is read back. */
  lemma GroupOfDigits(v: nat, mark: char, rest: string)
    requires v <= 59 && !IsDigit(mark)
    ensures OptionalGroup(NatDigits(v) + [mark] + rest, mark) == (Some(v), rest)
  {
    var s := NatDigits(v) + [mark] + rest;
    if v >= 10 {
      assert NatDigits(v) == NatDigits(v / 10) + [('0' as int + v % 10) as char];
      assert s[3..] == rest;
    } else {
      assert s[2..] == rest;
    }
  }

  /** A seconds group is not taken for a minutes group. */
  lemma SecondsNotMinutes(v: nat)
    requires v <= 59
    ensures OptionalGroup(NatDigits(v) + "\"", '\'') == (None, NatDigits(v) + "\"")
  {
    if v >= 10 {
      assert NatDigits(v) == NatDigits(v / 10) + [('0' as int + v % 10) as char];
    }
  }

  /** The minutes and seconds the renderer writes are read back. */
  lemma ParseRenderMarks(minutes: Option<nat>, seconds: Option<nat>)
    requires GroupsBounded(Groups(0, minutes, seconds))
    ensures ParseMarks(RenderMarks(minutes, seconds)) == Some((minutes, seconds))
  {
    var secs := if seconds.Some? then NatDigits(seconds.value) + "\"" else "";
    if minutes.Some? {
      GroupOfDigits(minutes.value, '\'', secs);
      assert RenderMarks(minutes, seconds) == NatDigits(minutes.value) + ['\''] + secs;
    } else {
      assert RenderMarks(minutes, seconds) == secs;
      if seconds.Some? {
        SecondsNotMinutes(seconds.value);
      }
    }
    if seconds.Some? {
      GroupOfDigits(seconds.value, '"', []);
      assert secs == NatDigits(seconds.value) + ['"'] + [];
    }
  }

  /** Every literal the renderer writes is recognised, with its groups. */
  lemma ParseRender(g: Groups, sym: char)
    requires DegreeSymbol(sym) && GroupsBounded(g)
    ensures Parse(Render(g, sym), sym) == Some(g)
  {
    if g.degrees >= 0 {
      ParseRenderBody(g.degrees, g.minutes, g.seconds, sym);
    } else {
      var body := RenderBody(-g.degrees, g.minutes, g.seconds, sym);
      ParseRenderBody(-g.degrees, g.minutes, g.seconds, sym);
      assert ("-" + body)[1..] == body;
    }
  }

  /** The unsigned part of a rendered literal is read back. */
  lemma ParseRenderBody(count: nat, minutes: Option<nat>, seconds: Option<nat>, sym: char)
    requires DegreeSymbol(sym) && GroupsBounded(Groups(count, minutes, seconds))
    ensures ParseUnsigned(RenderBody(count, minutes, seconds, sym), sym) == Some(Groups(count, minutes, seconds))
  {
    ParseRenderMarks(minutes, seconds);
    DigitsValueOfNatDigits(count);
    ParseOfBody(sym, NatDigits(count), RenderMarks(minutes, seconds));
  }

  /** Digits, the symbol and the marks parse to the digits' value with the
      groups the marks give. */
  lemma ParseOfBody(sym: char, ds: string, marks: string)
    requires DegreeSymbol(sym) && |ds| >= 1 && AllDigits(ds)
    ensures ParseUnsigned(ds + ([sym] + marks), sym) == WithDegrees(DigitsValue(ds), ParseMarks(marks))
  {
    var body := ds + ([sym] + marks);
    DigitRunOfDigits(ds, [sym] + marks);
    assert body[..|ds|] == ds && body[|ds|] == sym && body[|ds| + 1..] == marks;
  }

  /** Literals outside the grammar are refused: the empty string, a count
      without the degree symbol, a sign without digits, and a minutes
      group of 60. */
  lemma ParseRejects(sym: char)
    requires DegreeSymbol(sym)
    ensures Parse("", sym) == None
    ensures Parse("12", sym) == None
    ensures Parse(['-', sym], sym) == None
    ensures Parse(['1', sym, '6', '0', '\''], sym) == None
  {
  }

  /** A literal without the degree symbol is never recognised. */
  lemma ParseNeedsSymbol(s: string, sym: char)
    requires DegreeSymbol(sym) && sym !in s
    ensures Parse(s, sym) == None
  {
  }

  /** The static scratch fields `m_turnsValid`, `m_degreesValid`,
      `m_minutesValid` and `m_secondsValid`, shared by every angle. */
  class AngleScratch {
    var turnsValid: int
    var degreesValid: int
    var minutesValid: int
    var secondsValid: int

    /** The static initialisers: all four fields zero. */
    constructor ()
      ensures turnsValid == 0 && degreesValid == 0 && minutesValid == 0 && secondsValid == 0
    {
      turnsValid, degreesValid, minutesValid, secondsValid := 0, 0, 0, 0;
    }

    /** `validateString`: false, with the fields untouched, when the
        literal does not match; otherwise true, with absent groups read as
        zero and the degree count split into whole turns and the degrees
        left over, folded towards zero. */
    method ValidateString(str: string, sym: char) returns (ok: bool)
      requires DegreeSymbol(sym)
      modifies this
      ensures ok <==> Parse(str, sym).Some?
      ensures !ok ==> (turnsValid == old(turnsValid) && degreesValid == old(degreesValid)
                       && minutesValid == old(minutesValid) && secondsValid == old(secondsValid))
      ensures ok ==>
        var g := Parse(str, sym).value;
        var intDeg := ToShort(g.degrees);
        && turnsValid == ParsedTurns(intDeg) && degreesValid == FoldDegrees(intDeg)
        && minutesValid == (if g.minutes.Some? then g.minutes.value else 0)
        && secondsValid == (if g.seconds.Some? then g.seconds.value else 0)
    {
      var m := Parse(str, sym);
      if m.None? {
        return false;
      }
      turnsValid, degreesValid, minutesValid, secondsValid := 0, 0, 0, 0;
      if m.value.seconds.Some? {
        secondsValid := m.value.seconds.value;
      }
      if m.value.minutes.Some? {
        minutesValid := m.value.minutes.value;
      }
      var intDeg := ToShort(m.value.degrees);
      turnsValid := (if intDeg < 0 then -intDeg else intDeg) / 360;
      if intDeg < 0 {
        degreesValid := intDeg + turnsValid * 360;
      } else {
        degreesValid := intDeg - turnsValid * 360;
      }
      return true;
    }
  }

  /** With the corrected fold, the literal for -760 degrees and 7 seconds,
      with no minutes group, is accepted: 2 turns, -40 degrees, no minutes,
      7 seconds. (The fold as written would store -1480 degrees, see
      `FoldNegativeAsWritten`.) */
  method ValidateExample(scratch: AngleScratch, sym: char) returns (ok: bool)
    requires DegreeSymbol(sym)
    modifies scratch
    ensures ok
    ensures scratch.turnsValid == 2 && scratch.degreesValid == -40
    ensures scratch.minutesValid == 0 && scratch.secondsValid == 7
  {
    var groups := Groups(-760, None, Some(7));
    ParseRender(groups, sym);
    ok := scratch.ValidateString(Render(groups, sym), sym);
  }
}
