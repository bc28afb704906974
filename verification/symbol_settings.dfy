/** The symbol-scale inputs of components/SymbolSettings.tsx: each of the
    three multipliers is typed as text, taken while typing only when it is
    a whole number from 1 to 10, and clamped into that range when the input
    loses focus. */
module SymbolSettings {
  import opened Wrappers
  import opened Constants
  import Decimal

  predicate InRange(n: int) {
    MinSymbolScale <= n <= MaxSymbolScale
  }

  /** `handleScaleChange`: the value handed to the setter, or nothing when
      the setter is not called. */
  function ScaleChange(value: string): (r: Option<int>)
    ensures r.Some? <==> Decimal.ParseInt(value).Some? && InRange(Decimal.ParseInt(value).value)
    ensures r.Some? ==> r.value == Decimal.ParseInt(value).value
  {
    match Decimal.ParseInt(value)
    case Some(n) => if InRange(n) then Some(n) else None
    case None => None
  }

  /** `handleNumberInputBlur`: the setter is always called, with the current
      value for an empty input, 1 for text that is not a number or is below
      1, 10 above 10, and the number itself otherwise. */
  function NumberInputBlur(value: string, current: int): (r: int)
    ensures value == "" ==> r == current
    ensures value != "" ==> InRange(r)
    ensures value != "" && Decimal.ParseInt(value).Some? && InRange(Decimal.ParseInt(value).value) ==>
      r == Decimal.ParseInt(value).value
    ensures value != "" && (Decimal.ParseInt(value).None? || Decimal.ParseInt(value).value < MinSymbolScale) ==>
      r == MinSymbolScale
    ensures value != "" && Decimal.ParseInt(value).Some? && Decimal.ParseInt(value).value > MaxSymbolScale ==>
      r == MaxSymbolScale
  {
    if value == "" then current
    else
      match Decimal.ParseInt(value)
      case None => 1
      case Some(n) => if n < 1 then 1 else if n > 10 then 10 else n
  }

  /** Whatever is typed, leaving the input keeps a multiplier in range. */
  lemma BlurStaysInRange(value: string, current: int)
    requires InRange(current)
    ensures InRange(NumberInputBlur(value, current))
  {
  }

  /** A value accepted while typing is the value leaving the input keeps. */
  lemma BlurConfirmsChange(value: string, current: int)
    ensures ScaleChange(value).Some? ==> NumberInputBlur(value, current) == ScaleChange(value).value
  {
    if ScaleChange(value).Some? {
      Decimal.ParseIntEmpty();
      var p := Decimal.ParseInt(value);
      assert p.Some? && InRange(p.value);
    }
  }

  /** The input shows the multiplier's decimal text, and leaving it
      unchanged keeps the multiplier. */
  lemma BlurOfShownValue(n: int)
    requires InRange(n)
    ensures ScaleChange(Decimal.IntToString(n)) == Some(n)
    ensures NumberInputBlur(Decimal.IntToString(n), n) == n
  {
    Decimal.ParseIntOfIntToString(n);
  }

  /** Which multiplier an input sets. */
  datatype Symbol = StartSymbol | ControlSymbol | FinishSymbol

  function Set(scales: SymbolScales, which: Symbol, n: int): (r: SymbolScales)
    ensures Get(r, which) == n
    ensures forall other | other != which :: Get(r, other) == Get(scales, other)
  {
    match which
    case StartSymbol => scales.(start := n)
    case ControlSymbol => scales.(control := n)
    case FinishSymbol => scales.(finish := n)
  }

  function Get(scales: SymbolScales, which: Symbol): int {
    match which
    case StartSymbol => scales.start
    case ControlSymbol => scales.control
    case FinishSymbol => scales.finish
  }

  ghost predicate ScalesInRange(scales: SymbolScales) {
    forall which: Symbol :: InRange(Get(scales, which))
  }

  /** Typing into one input: that multiplier changes when the text is
      accepted, nothing changes otherwise. */
  function TypeInto(scales: SymbolScales, which: Symbol, value: string): (r: SymbolScales)
    ensures ScalesInRange(scales) ==> ScalesInRange(r)
    ensures ScaleChange(value).None? ==> r == scales
  {
    match ScaleChange(value)
    case Some(n) => Set(scales, which, n)
    case None => scales
  }

  /** Leaving one input: that multiplier is set to the clamped value. */
  function LeaveInput(scales: SymbolScales, which: Symbol, value: string): (r: SymbolScales)
    ensures ScalesInRange(scales) ==> ScalesInRange(r)
    ensures forall other | other != which :: Get(r, other) == Get(scales, other)
  {
    Set(scales, which, NumberInputBlur(value, Get(scales, which)))
  }

  /** The defaults are in range, so no sequence of typing and leaving inputs
      takes a multiplier out of 1..10. */
  lemma DefaultsInRange()
    ensures ScalesInRange(DefaultScales)
  {
    forall which: Symbol ensures InRange(Get(DefaultScales, which)) {
    }
  }
}
