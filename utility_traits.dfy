/**
 * The utility-trait examples with logic of their own: a `Selector` whose
 * `Deref`/`DerefMut` reach the currently selected value, the `Default`
 * values of two structs, and a checked integer conversion with a
 * saturating fallback.
 */
module UtilityTraits {
  import opened Wrappers
  import opened Decimal

  // ---------------------------------------------------------------------
  // Selector
  // ---------------------------------------------------------------------

  /** `Selector<T>`: a vector of values and the index of the current one. */
  class Selector<T> {
    var current: nat
    var values: seq<T>

    constructor (current: nat, values: seq<T>)
      ensures this.current == current && this.values == values
    {
      this.current := current;
      this.values := values;
    }

    /** `*s` is only defined while `current` indexes `values`; beyond that `deref` panics. */
    predicate Selects()
      reads this
    {
      current < |values|
    }

    /** `Deref::deref`: the current value. */
    function Deref(): (t: T)
      reads this
      requires Selects()
      ensures t in values
    {
      values[current]
    }

    /** `*s = value` through `DerefMut::deref_mut`: only the current value is replaced. */
    method Assign(value: T)
      requires Selects()
      modifies this
      ensures current == old(current) && |values| == |old(values)|
      ensures values[current] == value
      ensures forall i :: 0 <= i < |values| && i != current ==> values[i] == old(values[i])
      ensures Selects() && Deref() == value
    {
      values := values[current := value];
    }
  }

  /**
   * The selector demo of `main`: "one" is current at first, "two" after
   * `current = 1`, "two"[1..] is "wo", and `*s = "three"` replaces "two"
   * only. With `current = 10` the selector no longer selects anything.
   */
  method SelectorDemo() returns (first: string, second: string, tail: string, after: seq<string>, selectsAtTen: bool)
    ensures first == "one" && second == "two" && tail == "wo"
    ensures after == ["one", "three"]
    ensures !selectsAtTen
  {
    var s := new Selector(0, ["one", "two"]);
    first := s.Deref();
    s.current := 1;
    second := s.Deref();
    tail := s.Deref()[1..];
    s.Assign("three");
    after := s.values;
    s.current := 10;
    selectsAtTen := s.Selects();
  }

  // ---------------------------------------------------------------------
  // Default
  // ---------------------------------------------------------------------

  type u32 = x: int | 0 <= x < 0x1_0000_0000

  datatype Params = Params(name: string, isActive: bool, width: u32, height: u32, depth: u32)

  /** `Params::default()`. */
  function DefaultParams(): Params
  {
    Params("default", true, 640, 480, 1)
  }

  /** The default parameters: named "default", active, 640 by 480, depth 1. */
  lemma DefaultParamsValues()
    ensures DefaultParams().name == "default" && DefaultParams().isActive
    ensures DefaultParams().width == 640 && DefaultParams().height == 480 && DefaultParams().depth == 1
  {
  }

  /** `Params { name, width, ..Params::default() }`. */
  function ParamsWith(name: string, width: u32): (p: Params)
    ensures p.name == name && p.width == width
    ensures p.isActive == DefaultParams().isActive && p.height == DefaultParams().height && p.depth == DefaultParams().depth
  {
    DefaultParams().(name := name, width := width)
  }

  /** The struct update of `main`: "Width: 1080" at width 1080, active, 480 high, depth 1. */
  lemma ParamsWithDemo()
    ensures ParamsWith("Width: 1080", 1080) == Params("Width: 1080", true, 1080, 480, 1)
  {
  }

  /** `#[derive(Default)]` on three `u32` fields. */
  datatype ValuesZeroByDefault = ValuesZeroByDefault(a: u32, b: u32, c: u32)

  /** The derived default: every field is `u32::default()`, zero. */
  function DefaultValues(): (z: ValuesZeroByDefault)
    ensures z.a == 0 && z.b == 0 && z.c == 0
  {
    ValuesZeroByDefault(0, 0, 0)
  }

  // ---------------------------------------------------------------------
  // TryFrom / TryInto
  // ---------------------------------------------------------------------

  const I16_MIN: int := -0x8000
  const I16_MAX: int := 0x7FFF

  type usize = x: int | 0 <= x <= USIZE_MAX

  /** `TryFromIntError`: the value does not fit the target type. */
  datatype TryFromIntError = TryFromIntError

  /** `i16::try_from`: the same value when it is in range, an error otherwise. */
  function TryIntoI16(x: int): (r: Result<int, TryFromIntError>)
    ensures r.Ok? <==> I16_MIN <= x <= I16_MAX
    ensures r.Ok? ==> r.value == x
  {
    if I16_MIN <= x <= I16_MAX then Ok(x) else Err(TryFromIntError)
  }

  /** `large.try_into().unwrap_or_else(|_| if large >= 0 { i16::MAX } else { i16::MIN })`. */
  function SaturatingI16(large: usize): int
  {
    match TryIntoI16(large)
    case Ok(v) => v
    case Err(_) => if large >= 0 then I16_MAX else I16_MIN
  }

  /**
   * A `usize` that fits keeps its value; any larger one becomes `i16::MAX`,
   * since a `usize` is never negative and the `i16::MIN` branch is never taken.
   */
  lemma SaturatingI16Spec(large: usize)
    ensures I16_MIN <= SaturatingI16(large) <= I16_MAX
    ensures large <= I16_MAX ==> SaturatingI16(large) == large
    ensures large > I16_MAX ==> SaturatingI16(large) == I16_MAX
  {
  }

  /** The value of `main`, two trillion, becomes 32767. */
  lemma TwoTrillionSaturates()
    ensures SaturatingI16(2_000_000_000_000) == 32767
  {
  }
}
