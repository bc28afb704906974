/** The numeric constants of `constants.ts` the core uses. Sizes are in map
    units at symbol multiplier 5; every symbol quantity is scaled by
    `multiplier / 5`. */
module Constants {

  const BaseStartSize: real := 30.0
  const BaseControlRadius: real := 15.0
  const BaseFinishOuterRadius: real := 18.0
  const FinishInnerRadiusProportion: real := 2.0 / 3.0

  const SymbolBaseLineWidth: real := 1.0
  const LegBaseLineWidth: real := 0.75
  const ControlNumberBaseFontSize: real := 12.0
  const TextGapAboveControl: real := 3.0

  const LegConnectionGap: real := 4.0

  /** Screen-space click tolerance in pixels, divided by the zoom to get map units. */
  const ClickTolerancePixels: real := 5.0

  /** Default and bounds of the per-kind symbol multiplier. */
  const DefaultSymbolScale: int := 5
  const MinSymbolScale: int := 1
  const MaxSymbolScale: int := 10

  /** The three user-set symbol multipliers (1..10, default 5). */
  datatype SymbolScales = SymbolScales(start: int, control: int, finish: int)

  const DefaultScales: SymbolScales := SymbolScales(DefaultSymbolScale, DefaultSymbolScale, DefaultSymbolScale)

  /** The linear factor a multiplier applies to a base size. */
  function Factor(multiplier: int): (f: real)
    ensures multiplier >= 1 ==> f >= 0.2
    ensures multiplier == DefaultSymbolScale ==> f == 1.0
  {
    multiplier as real / 5.0
  }

  /** Side length of the Start triangle. */
  function StartSize(s: SymbolScales): real {
    BaseStartSize * Factor(s.start)
  }

  function ControlRadius(s: SymbolScales): real {
    BaseControlRadius * Factor(s.control)
  }

  function FinishOuterRadius(s: SymbolScales): real {
    BaseFinishOuterRadius * Factor(s.finish)
  }
}
