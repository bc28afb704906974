/** `handleApply` of components/ScaleSettings.tsx: the map-scale form is
    checked and either a new `MapScaleSettings` is handed on or the user is
    alerted and nothing is handed on. `parseFloat` is a parameter: it gives
    `None` where the program's gives `NaN`. */
module ScaleSettingsForm {
  import opened Wrappers
  import opened CourseModel
  import Decimal

  /** The form: the chosen mode and the three text inputs. */
  datatype ScaleForm = ScaleForm(mode: MapScaleMode, ratioText: string, mapUnitsText: string, realMetersText: string)

  datatype ApplyAlert = BadRatio | MetersMissing | BadReference

  datatype ApplyOutcome = Emit(settings: MapScaleSettings) | Alert(reason: ApplyAlert)

  /** Settings carry their mode's fields and no others, each positive. */
  predicate WellFormedSettings(s: MapScaleSettings) {
    match s.mode
    case NoScale => s.ratioValue.None? && s.mapUnitsOnScreen.None? && s.realWorldMeters.None?
    case Ratio =>
      s.ratioValue.Some? && s.ratioValue.value > 0 && s.mapUnitsOnScreen.None? && s.realWorldMeters.None?
    case ReferenceLength =>
      && s.ratioValue.None?
      && s.mapUnitsOnScreen.Some? && s.mapUnitsOnScreen.value > 0.0
      && s.realWorldMeters.Some? && s.realWorldMeters.value > 0.0
  }

  predicate Positive(x: Option<real>) {
    x.Some? && x.value > 0.0
  }

  function HandleApply(form: ScaleForm, parseFloat: string -> Option<real>): (r: ApplyOutcome)
    ensures r.Emit? ==> r.settings.mode == form.mode && WellFormedSettings(r.settings)
    ensures form.mode == NoScale ==> r == Emit(MapScaleSettings(NoScale, None, None, None))
    ensures form.mode == Ratio ==>
      (r.Emit? <==> Decimal.ParseInt(form.ratioText).Some? && Decimal.ParseInt(form.ratioText).value > 0)
    ensures form.mode == Ratio && r.Emit? ==> r.settings.ratioValue == Decimal.ParseInt(form.ratioText)
    ensures form.mode == Ratio && r.Alert? ==> r.reason == BadRatio
    ensures form.mode == ReferenceLength ==>
      (r.Emit? <==> Positive(parseFloat(form.mapUnitsText)) && Positive(parseFloat(form.realMetersText)))
    ensures form.mode == ReferenceLength && r.Emit? ==>
      r.settings.mapUnitsOnScreen == parseFloat(form.mapUnitsText)
      && r.settings.realWorldMeters == parseFloat(form.realMetersText)
    ensures form.mode == ReferenceLength && r.Alert? ==>
      (r.reason == MetersMissing <==>
         Positive(parseFloat(form.mapUnitsText))
         && (form.realMetersText == "" || (parseFloat(form.realMetersText).Some? && parseFloat(form.realMetersText).value <= 0.0)))
    ensures r.Alert? ==> form.mode != NoScale
  {
    match form.mode
    case NoScale => Emit(MapScaleSettings(NoScale, None, None, None))
    case Ratio =>
      (match Decimal.ParseInt(form.ratioText)
       case Some(v) => if v > 0 then Emit(MapScaleSettings(Ratio, Some(v), None, None)) else Alert(BadRatio)
       case None => Alert(BadRatio))
    case ReferenceLength =>
      var mu, rm := parseFloat(form.mapUnitsText), parseFloat(form.realMetersText);
      if Positive(mu) && Positive(rm) then Emit(MapScaleSettings(ReferenceLength, None, mu, rm))
      else if Positive(mu) && (form.realMetersText == "" || (rm.Some? && rm.value <= 0.0)) then Alert(MetersMissing)
      else Alert(BadReference)
  }

  /** The form as the panel fills it from the current settings: a missing
      ratio shows 15000, a missing length shows empty. `format` is
      `Number.prototype.toString` on reals. */
  function FormOf(s: MapScaleSettings, format: real -> string): (f: ScaleForm)
    ensures f.mode == s.mode
  {
    ScaleForm(s.mode,
              match s.ratioValue case Some(v) => Decimal.IntToString(v) case None => "15000",
              match s.mapUnitsOnScreen case Some(x) => format(x) case None => "",
              match s.realWorldMeters case Some(x) => format(x) case None => "")
  }

  /** Applying the form as filled from well-formed settings hands the same
      settings on, provided `parseFloat` reads back what `toString` writes. */
  lemma ApplyFilledForm(s: MapScaleSettings, parseFloat: string -> Option<real>, format: real -> string)
    requires WellFormedSettings(s)
    requires forall x: real :: x > 0.0 ==> parseFloat(format(x)) == Some(x)
    ensures HandleApply(FormOf(s, format), parseFloat) == Emit(s)
  {
    if s.mode == Ratio {
      Decimal.ParseIntOfIntToString(s.ratioValue.value);
    }
    if s.mode == ReferenceLength {
      assert parseFloat(format(s.mapUnitsOnScreen.value)) == s.mapUnitsOnScreen;
      assert parseFloat(format(s.realWorldMeters.value)) == s.realWorldMeters;
    }
  }

  /** A measured length with no meters typed is refused with its own alert,
      whatever `parseFloat` makes of the empty text. */
  lemma MeasuredLengthNeedsMeters(units: string, parseFloat: string -> Option<real>)
    requires Positive(parseFloat(units)) && !Positive(parseFloat(""))
    ensures HandleApply(ScaleForm(ReferenceLength, "", units, ""), parseFloat) == Alert(MetersMissing)
  {
  }

  /** Zero and negative ratios are refused; `parseInt` reads a ratio with
      trailing text by its leading digits, so "12 m" gives 12. */
  lemma RatioReadsLeadingDigits(parseFloat: string -> Option<real>)
    ensures HandleApply(ScaleForm(Ratio, "0", "", ""), parseFloat) == Alert(BadRatio)
    ensures HandleApply(ScaleForm(Ratio, "-5", "", ""), parseFloat) == Alert(BadRatio)
    ensures HandleApply(ScaleForm(Ratio, "12 m", "", ""), parseFloat) == Emit(MapScaleSettings(Ratio, Some(12), None, None))
  {
    assert Decimal.ParseInt("0") == Some(0) by {
      Decimal.ParseIntOfIntToString(0);
    }
    assert Decimal.ParseInt("-5") == Some(-5) by {
      Decimal.ParseIntOfIntToString(-5);
      assert Decimal.IntToString(-5) == "-5";
    }
    LeadingDigits();
  }

  lemma LeadingDigits()
    ensures Decimal.ParseInt("12 m") == Some(12)
  {
    var s := "12 m";
    assert !Decimal.IsJsWhiteSpace(s[0]);
    assert Decimal.SkipWhiteSpace(s) == s;
    DigitRunOfTwelve();
    assert s[..2] == "12";
    assert Decimal.DigitsValue("12") == 12 by {
      assert "12"[..1] == "1";
      assert "1"[..0] == "";
    }
    assert Decimal.ParseSigned(s) == Some(12);
  }

  lemma DigitRunOfTwelve()
    ensures Decimal.DigitRun("12 m") == 2
  {
    var s := "12 m";
    assert s[1..] == "2 m" && s[1..][1..] == " m";
    assert !Decimal.IsDigit(' ');
    assert Decimal.DigitRun(" m") == 0;
  }
}
