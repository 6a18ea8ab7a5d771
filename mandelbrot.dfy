/**
 * The Mandelbrot renderer: parsing of `WxH`-style pairs, the escape-time
 * evaluator over an abstract orbit, the row-major render loop, and the
 * partition of the pixel buffer into row bands, one per worker.
 *
 * Floating-point geometry is not modelled: the pixel-to-point mapping is a
 * parameter of the renderer, and the iterated map `z * z + c` with its bound
 * check `norm_sqr(z) > 4` is a `Dynamics` value.
 */
module Mandelbrot {
  import opened Wrappers
  import opened Decimal
  import opened Slices

  // ---------------------------------------------------------------------
  // parse_pair
  // ---------------------------------------------------------------------

  /** `str::find` for a character: the index of its first occurrence. */
  function Find(s: string, c: char): (r: Option<nat>)
    ensures r.None? <==> c !in s
    ensures r.Some? ==> r.value < |s| && s[r.value] == c && c !in s[..r.value]
  {
    if s == [] then None
    else if s[0] == c then Some(0)
    else match Find(s[1..], c)
      case None => None
      case Some(i) =>
        assert s[..i + 1] == [s[0]] + s[1..][..i];
        Some(i + 1)
  }

  /** The first occurrence of `c` is at `i` when none comes before it. */
  lemma {:induction false} FindAfter(s: string, c: char, i: nat)
    requires i < |s| && s[i] == c && c !in s[..i]
    ensures Find(s, c) == Some(i)
  {
    if i > 0 {
      assert s[0] == s[..i][0];
      assert s[1..][..i - 1] == s[..i][1..];
      FindAfter(s[1..], c, i - 1);
    }
  }

  /**
   * Splits `s` at the first `separator` and parses both halves with `parse`
   * (the `FromStr` instance of the element type).
   */
  function ParsePair<T>(s: string, separator: char, parse: string -> Option<T>): (r: Option<(T, T)>)
    ensures separator !in s ==> r == None
  {
    match Find(s, separator)
    case None => None
    case Some(index) =>
      match (parse(s[..index]), parse(s[index + 1..]))
      case (Some(l), Some(r)) => Some((l, r))
      case _ => None
  }

  /** At the first occurrence k of the separator, the pair is the two parsed halves, or None if either fails. */
  lemma ParsePairAt<T>(s: string, separator: char, parse: string -> Option<T>, k: nat)
    requires k < |s| && s[k] == separator && separator !in s[..k]
    ensures ParsePair(s, separator, parse) ==
            if parse(s[..k]).Some? && parse(s[k + 1..]).Some?
            then Some((parse(s[..k]).value, parse(s[k + 1..]).value))
            else None
  {
  }

  /** `i32::from_str`, with the error dropped. */
  function ParseI32Option(s: string): Option<int>
  {
    ToOption(ParseI32(s))
  }

  /** The image dimensions `WxH`, parsed as `usize` values. */
  function ParseBounds(s: string): (r: Option<(nat, nat)>)
    ensures r.Some? ==> r.value.0 <= USIZE_MAX && r.value.1 <= USIZE_MAX
  {
    match ParsePair(s, 'x', (t: string) => ToOption(ParseUsize(t)))
    case None => None
    case Some((w, h)) =>
      ParsePairRange(s, 'x', w, h);
      Some((w, h))
  }

  lemma ParsePairRange(s: string, separator: char, w: int, h: int)
    requires ParsePair(s, separator, (t: string) => ToOption(ParseUsize(t))) == Some((w, h))
    ensures 0 <= w <= USIZE_MAX && 0 <= h <= USIZE_MAX
  {
  }

  lemma ParsePairExamples()
    ensures ParsePair("", ',', ParseI32Option) == None
    ensures ParsePair("10,", ',', ParseI32Option) == None
    ensures ParsePair("10,20", ',', ParseI32Option) == Some((10, 20))
    ensures ParsePair("10x20", 'x', ParseI32Option) == Some((10, 20))
  {
    ParseTenTwenty();
    ParsePairMissingSecond();
    ParsePairBoth("10,20", ',');
    ParsePairBoth("10x20", 'x');
  }

  lemma ParseTenTwenty()
    ensures ParseI32Option("10") == Some(10) && ParseI32Option("20") == Some(20)
  {
    ParseNatToString(10, I32_MIN, I32_MAX);
    ParseNatToString(20, I32_MIN, I32_MAX);
    assert NatToString(10) == "10";
    assert NatToString(20) == "20";
  }

  /** `"10,"`: nothing after the separator, so no pair. */
  lemma ParsePairMissingSecond()
    ensures ParsePair("10,", ',', ParseI32Option) == None
  {
    ParseTenTwenty();
    ParsePairAt("10,", ',', ParseI32Option, 2);
    assert "10,"[..2] == "10" && "10,"[3..] == "";
  }

  /** `"10" + separator + "20"` parses to (10, 20). */
  lemma ParsePairBoth(s: string, separator: char)
    requires s == ['1', '0', separator, '2', '0'] && separator != '1' && separator != '0'
    ensures ParsePair(s, separator, ParseI32Option) == Some((10, 20))
  {
    ParseTenTwenty();
    ParsePairAt(s, separator, ParseI32Option, 2);
    assert s[..2] == "10" && s[3..] == "20";
  }

  // ---------------------------------------------------------------------
  // escape_time over an abstract orbit
  // ---------------------------------------------------------------------

  /**
   * The iterated map: `step(c, z)` is the next point after `z` for the
   * parameter `c` (`z * z + c`), `exceeds` the escape test
   * (`norm_sqr() > 4.0`) and `zero` the starting point `0 + 0i`.
   */
  datatype Dynamics<!Z> = Dynamics(step: (Z, Z) -> Z, exceeds: Z -> bool, zero: Z)

  /** z_k: the orbit of `c`, z_0 = zero and z_{k+1} = step(c, z_k). */
  function Orbit<Z>(d: Dynamics<Z>, c: Z, k: nat): Z
  {
    if k == 0 then d.zero else d.step(c, Orbit(d, c, k - 1))
  }

  /** Step i (0-based) is the first one whose result z_{i+1} exceeds the bound, and it is within the limit. */
  ghost predicate EscapesAt<Z>(d: Dynamics<Z>, c: Z, limit: nat, i: nat)
  {
    && i < limit
    && d.exceeds(Orbit(d, c, i + 1))
    && forall j :: 1 <= j <= i ==> !d.exceeds(Orbit(d, c, j))
  }

  /** No point z_1 .. z_limit exceeds the bound. */
  ghost predicate NeverEscapes<Z>(d: Dynamics<Z>, c: Z, limit: nat)
  {
    forall j :: 1 <= j <= limit ==> !d.exceeds(Orbit(d, c, j))
  }

  /** The first step in [from, limit) whose result exceeds the bound. */
  function FirstEscapeFrom<Z>(d: Dynamics<Z>, c: Z, limit: nat, from: nat): Option<nat>
    decreases limit - from
  {
    if from >= limit then None
    else if d.exceeds(Orbit(d, c, from + 1)) then Some(from)
    else FirstEscapeFrom(d, c, limit, from + 1)
  }

  /** The value `escape_time(c, limit)` returns. */
  function EscapeIndex<Z>(d: Dynamics<Z>, c: Z, limit: nat): Option<nat>
  {
    FirstEscapeFrom(d, c, limit, 0)
  }

  lemma {:induction false} FirstEscapeFromSpec<Z>(d: Dynamics<Z>, c: Z, limit: nat, from: nat)
    requires from <= limit
    requires forall j :: 1 <= j <= from ==> !d.exceeds(Orbit(d, c, j))
    ensures FirstEscapeFrom(d, c, limit, from).Some? ==> EscapesAt(d, c, limit, FirstEscapeFrom(d, c, limit, from).value)
    ensures FirstEscapeFrom(d, c, limit, from).None? ==> NeverEscapes(d, c, limit)
    decreases limit - from
  {
    if from < limit && !d.exceeds(Orbit(d, c, from + 1)) {
      FirstEscapeFromSpec(d, c, limit, from + 1);
    }
  }

  /**
   * `escape_time` returns Some(i) exactly when step i is the first escaping
   * step below the limit, and None exactly when no step below the limit escapes.
   */
  lemma EscapeIndexSpec<Z>(d: Dynamics<Z>, c: Z, limit: nat, i: nat)
    ensures EscapeIndex(d, c, limit) == Some(i) <==> EscapesAt(d, c, limit, i)
    ensures EscapeIndex(d, c, limit) == None <==> NeverEscapes(d, c, limit)
  {
    FirstEscapeFromSpec(d, c, limit, 0);
    if EscapesAt(d, c, limit, i) && EscapeIndex(d, c, limit).Some? {
      EscapesAtUnique(d, c, limit, i, EscapeIndex(d, c, limit).value);
    }
  }

  /** At most one step is the first escaping one. */
  lemma EscapesAtUnique<Z>(d: Dynamics<Z>, c: Z, limit: nat, i: nat, k: nat)
    requires EscapesAt(d, c, limit, i) && EscapesAt(d, c, limit, k)
    ensures i == k
  {
  }

  /** `escape_time`: the loop that updates `z` and returns at the first escape. */
  method EscapeTime<Z>(d: Dynamics<Z>, c: Z, limit: nat) returns (r: Option<nat>)
    ensures r == EscapeIndex(d, c, limit)
    ensures r.Some? ==> EscapesAt(d, c, limit, r.value)
    ensures r.None? ==> NeverEscapes(d, c, limit)
  {
    var z := d.zero;
    for i := 0 to limit
      invariant z == Orbit(d, c, i)
      invariant FirstEscapeFrom(d, c, limit, i) == EscapeIndex(d, c, limit)
      invariant forall j :: 1 <= j <= i ==> !d.exceeds(Orbit(d, c, j))
    {
      z := d.step(c, z);
      if d.exceeds(z) {
        return Some(i);
      }
    }
    return None;
  }

  // ---------------------------------------------------------------------
  // The iterator formulations of escape_time
  // ---------------------------------------------------------------------

  /** `successors(Some(first), |z| Some(next(z))).take(n)`. */
  function TakeSuccessors<Z>(first: Z, next: Z -> Z, n: nat): (zs: seq<Z>)
    ensures |zs| == n
    decreases n
  {
    if n == 0 then [] else [first] + TakeSuccessors(next(first), next, n - 1)
  }

  /** The successors of zero under the step for `c` are the orbit points, z_0 first. */
  lemma {:induction false} TakeSuccessorsOrbit<Z>(d: Dynamics<Z>, c: Z, from: nat, n: nat, k: nat)
    requires k < n
    ensures TakeSuccessors(Orbit(d, c, from), (z: Z) => d.step(c, z), n)[k] == Orbit(d, c, from + k)
    decreases k
  {
    if k > 0 {
      TakeSuccessorsOrbit(d, c, from + 1, n - 1, k - 1);
    }
  }

  /** `Iterator::position`: the index of the first element satisfying `p`. */
  function Position<X>(xs: seq<X>, p: X -> bool): (r: Option<nat>)
    ensures r.Some? ==> r.value < |xs| && p(xs[r.value]) && forall j :: 0 <= j < r.value ==> !p(xs[j])
    ensures r.None? ==> forall j :: 0 <= j < |xs| ==> !p(xs[j])
  {
    if xs == [] then None
    else if p(xs[0]) then Some(0)
    else match Position(xs[1..], p)
      case None => None
      case Some(i) => Some(i + 1)
  }

  /** The first index satisfying `p` is the position. */
  lemma PositionFirst<X>(xs: seq<X>, p: X -> bool, k: nat)
    requires k < |xs| && p(xs[k]) && forall j :: 0 <= j < k ==> !p(xs[j])
    ensures Position(xs, p) == Some(k)
  {
  }

  /** With no index satisfying `p` there is no position. */
  lemma PositionAbsent<X>(xs: seq<X>, p: X -> bool)
    requires forall j :: 0 <= j < |xs| ==> !p(xs[j])
    ensures Position(xs, p) == None
  {
  }

  /** `Iterator::enumerate`. */
  function Enumerate<X>(xs: seq<X>): (r: seq<(nat, X)>)
    ensures |r| == |xs|
    ensures forall i :: 0 <= i < |xs| ==> r[i] == (i, xs[i])
  {
    seq(|xs|, i requires 0 <= i < |xs| => (i, xs[i]))
  }

  /** `Iterator::find`: the first element satisfying `p`. */
  function FindFirst<X>(xs: seq<X>, p: X -> bool): Option<X>
  {
    if xs == [] then None
    else if p(xs[0]) then Some(xs[0])
    else FindFirst(xs[1..], p)
  }

  /** The first `limit` points of the orbit, z_0 included. */
  function OrbitPrefix<Z>(d: Dynamics<Z>, c: Z, limit: nat): seq<Z>
  {
    TakeSuccessors(d.zero, (z: Z) => d.step(c, z), limit)
  }

  lemma OrbitPrefixAt<Z>(d: Dynamics<Z>, c: Z, limit: nat, k: nat)
    requires k < limit
    ensures OrbitPrefix(d, c, limit)[k] == Orbit(d, c, k)
  {
    TakeSuccessorsOrbit(d, c, 0, limit, k);
  }

  /**
   * `escape_time_iter_other`: the position of the first escaping point among
   * the first `limit` orbit points, minus one. The starting point never
   * exceeds the bound (|0|^2 = 0), so the subtraction stays in range.
   */
  function EscapeTimeIterOther<Z>(d: Dynamics<Z>, c: Z, limit: nat): (r: Option<nat>)
    requires !d.exceeds(d.zero)
  {
    match Position(OrbitPrefix(d, c, limit), d.exceeds)
    case None => None
    case Some(i) =>
      OrbitPrefixAt(d, c, limit, 0);
      Some(i - 1)
  }

  /** `escape_time_iter`: the same search written as `enumerate().find(..)`, minus one. */
  function EscapeTimeIter<Z>(d: Dynamics<Z>, c: Z, limit: nat): (r: Option<nat>)
    requires !d.exceeds(d.zero)
  {
    match FindFirst(Enumerate(OrbitPrefix(d, c, limit)), (p: (nat, Z)) => d.exceeds(p.1))
    case None => None
    case Some(found) =>
      FindFirstEnumerate(OrbitPrefix(d, c, limit), d.exceeds);
      OrbitPrefixAt(d, c, limit, 0);
      Some(found.0 - 1)
  }

  /** Enumerate from an offset, as the tail of an enumeration sees it. */
  function EnumerateFrom<X>(xs: seq<X>, offset: nat): (r: seq<(nat, X)>)
    ensures |r| == |xs|
  {
    seq(|xs|, i requires 0 <= i < |xs| => (offset + i, xs[i]))
  }

  lemma {:induction false} FindFirstEnumerateFrom<X>(xs: seq<X>, p: X -> bool, offset: nat)
    ensures FindFirst(EnumerateFrom(xs, offset), (q: (nat, X)) => p(q.1)) ==
            match Position(xs, p)
            case None => None
            case Some(i) => Some((offset + i, xs[i]))
    decreases |xs|
  {
    if xs != [] && !p(xs[0]) {
      FindFirstEnumerateFrom(xs[1..], p, offset + 1);
      assert EnumerateFrom(xs, offset)[1..] == EnumerateFrom(xs[1..], offset + 1);
    }
  }

  /** `enumerate().find(p on the item)` finds the element at `position(p)`. */
  lemma FindFirstEnumerate<X>(xs: seq<X>, p: X -> bool)
    ensures FindFirst(Enumerate(xs), (q: (nat, X)) => p(q.1)) ==
            match Position(xs, p)
            case None => None
            case Some(i) => Some((i, xs[i]))
  {
    assert Enumerate(xs) == EnumerateFrom(xs, 0);
    FindFirstEnumerateFrom(xs, p, 0);
  }

  /** The two iterator formulations always agree. */
  lemma IterVariantsAgree<Z>(d: Dynamics<Z>, c: Z, limit: nat)
    requires !d.exceeds(d.zero)
    ensures EscapeTimeIter(d, c, limit) == EscapeTimeIterOther(d, c, limit)
  {
    FindFirstEnumerate(OrbitPrefix(d, c, limit), d.exceeds);
  }

  /**
   * The iterator formulations agree with `escape_time` except when the first
   * escape happens at the last step: `take(limit)` includes z_0 and so never
   * looks at z_limit.
   */
  lemma IterVersusLoop<Z>(d: Dynamics<Z>, c: Z, limit: nat)
    requires !d.exceeds(d.zero)
    ensures limit > 0 && EscapeIndex(d, c, limit) == Some(limit - 1) ==> EscapeTimeIterOther(d, c, limit) == None
    ensures !(limit > 0 && EscapeIndex(d, c, limit) == Some(limit - 1)) ==> EscapeTimeIterOther(d, c, limit) == EscapeIndex(d, c, limit)
  {
    var zs := OrbitPrefix(d, c, limit);
    forall k | 0 <= k < limit ensures zs[k] == Orbit(d, c, k) {
      OrbitPrefixAt(d, c, limit, k);
    }
    var pos := Position(zs, d.exceeds);
    match pos
    case None =>
      // No z_k with k < limit escapes, so an escape can only be z_limit, at step limit - 1.
      if EscapeIndex(d, c, limit).Some? {
        var i := EscapeIndex(d, c, limit).value;
        EscapeIndexSpec(d, c, limit, i);
      }
    case Some(p) =>
      assert p > 0;
      EscapeIndexSpec(d, c, limit, p - 1);
      assert EscapesAt(d, c, limit, p - 1) by {
        forall j | 1 <= j <= p - 1 ensures !d.exceeds(Orbit(d, c, j)) {
          assert !d.exceeds(zs[j]);
        }
      }
  }

  /**
   * The evidently intended iterator formulation: `take(limit + 1)`, so that
   * the points z_1 .. z_limit are all examined.
   */
  function EscapeTimeIterCorrected<Z>(d: Dynamics<Z>, c: Z, limit: nat): (r: Option<nat>)
    requires !d.exceeds(d.zero)
  {
    EscapeTimeIterOther(d, c, limit + 1)
  }

  /** With `take(limit + 1)` the iterator formulation is `escape_time` on every input. */
  lemma IterCorrectedAgrees<Z>(d: Dynamics<Z>, c: Z, limit: nat)
    requires !d.exceeds(d.zero)
    ensures EscapeTimeIterCorrected(d, c, limit) == EscapeIndex(d, c, limit)
  {
    IterVersusLoop(d, c, limit + 1);
    EscapeIndexSpec(d, c, limit + 1, limit);
    match EscapeIndex(d, c, limit + 1)
    case None =>
      EscapeIndexSpec(d, c, limit, 0);
    case Some(i) =>
      EscapeIndexSpec(d, c, limit + 1, i);
      if i < limit {
        EscapeIndexSpec(d, c, limit, i);
      } else {
        EscapeIndexSpec(d, c, limit, 0);
        assert NeverEscapes(d, c, limit);
      }
  }

  // ---------------------------------------------------------------------
  // The quadratic map over exact complex numbers, for the points of `test_escape_time`
  // ---------------------------------------------------------------------

  datatype Complex = Complex(re: real, im: real)

  /** `norm_sqr`. */
  function NormSqr(z: Complex): real
  {
    z.re * z.re + z.im * z.im
  }

  /** z * z + c. */
  function QuadraticStep(c: Complex, z: Complex): Complex
  {
    Complex(z.re * z.re - z.im * z.im + c.re, 2.0 * z.re * z.im + c.im)
  }

  /** The escape test `norm_sqr() > 4.0`. */
  predicate Escapes(z: Complex)
  {
    NormSqr(z) > 4.0
  }

  function Quadratic(): Dynamics<Complex>
  {
    Dynamics(QuadraticStep, Escapes, Complex(0.0, 0.0))
  }

  /** `escape_time(2 + 0i, 10) == Some(1)`: z_1 = 2 has |z|^2 = 4, which is not above 4; z_2 = 6 escapes. */
  lemma EscapeTimeOfTwo()
    ensures EscapeIndex(Quadratic(), Complex(2.0, 0.0), 10) == Some(1)
    ensures EscapeTimeIter(Quadratic(), Complex(2.0, 0.0), 10) == Some(1)
    ensures EscapeTimeIterOther(Quadratic(), Complex(2.0, 0.0), 10) == Some(1)
  {
    var d, c := Quadratic(), Complex(2.0, 0.0);
    OrbitOfTwo();
    EscapeIndexSpec(d, c, 10, 1);
    IterVersusLoop(d, c, 10);
    IterVariantsAgree(d, c, 10);
  }

  lemma OrbitOfTwo()
    ensures Orbit(Quadratic(), Complex(2.0, 0.0), 1) == Complex(2.0, 0.0)
    ensures Orbit(Quadratic(), Complex(2.0, 0.0), 2) == Complex(6.0, 0.0)
  {
    assert Orbit(Quadratic(), Complex(2.0, 0.0), 1) == Complex(2.0, 0.0);
  }

  /** Every orbit point of 0.00011 + 0i stays real and within [0, 0.0002]. */
  lemma {:induction false} SmallOrbit(k: nat)
    ensures SmallReal(Orbit(Quadratic(), Complex(0.00011, 0.0), k))
  {
    if k > 0 {
      SmallOrbit(k - 1);
      SmallStep(Orbit(Quadratic(), Complex(0.00011, 0.0), k - 1));
    }
  }

  predicate SmallReal(z: Complex)
  {
    z.im == 0.0 && 0.0 <= z.re <= 0.0002
  }

  /** The interval [0, 0.0002] of the real axis is mapped into itself, and never escapes. */
  lemma SmallStep(z: Complex)
    requires SmallReal(z)
    ensures SmallReal(QuadraticStep(Complex(0.00011, 0.0), z))
    ensures !Escapes(z)
  {
    var x := z.re;
    MulNonneg(x, 0.0002 - x);
    assert x * (0.0002 - x) == 0.0002 * x - x * x;
    MulNonneg(x, x);
    assert QuadraticStep(Complex(0.00011, 0.0), z) == Complex(x * x + 0.00011, 0.0);
    assert NormSqr(z) == x * x;
  }

  lemma MulNonneg(a: real, b: real)
    requires a >= 0.0 && b >= 0.0
    ensures a * b >= 0.0
  {
  }

  /** `escape_time(0.00011 + 0i, 10) == None`, and the same for both iterator formulations. */
  lemma EscapeTimeNearCardioid()
    ensures EscapeIndex(Quadratic(), Complex(0.00011, 0.0), 10) == None
    ensures EscapeTimeIter(Quadratic(), Complex(0.00011, 0.0), 10) == None
    ensures EscapeTimeIterOther(Quadratic(), Complex(0.00011, 0.0), 10) == None
  {
    var d, c := Quadratic(), Complex(0.00011, 0.0);
    NearCardioidStaysSmall(10);
    EscapeIndexSpec(d, c, 10, 0);
    IterVersusLoop(d, c, 10);
    IterVariantsAgree(d, c, 10);
  }

  lemma NearCardioidStaysSmall(limit: nat)
    ensures NeverEscapes(Quadratic(), Complex(0.00011, 0.0), limit)
  {
    forall j | 1 <= j <= limit ensures !Escapes(Orbit(Quadratic(), Complex(0.00011, 0.0), j)) {
      SmallOrbit(j);
      SmallStep(Orbit(Quadratic(), Complex(0.00011, 0.0), j));
    }
  }

  /** With limit 2 the point 2 + 0i escapes at the last step, which the iterator formulations miss. */
  lemma IterMissesLastStep()
    ensures EscapeIndex(Quadratic(), Complex(2.0, 0.0), 2) == Some(1)
    ensures EscapeTimeIterOther(Quadratic(), Complex(2.0, 0.0), 2) == None
    ensures EscapeTimeIter(Quadratic(), Complex(2.0, 0.0), 2) == None
  {
    var d, c := Quadratic(), Complex(2.0, 0.0);
    OrbitOfTwo();
    assert EscapeIndex(d, c, 2) == Some(1);
    IterVersusLoop(d, c, 2);
    IterVariantsAgree(d, c, 2);
  }
}
