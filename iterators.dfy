/**
 * Hand-written iterators and the equivalences `main` demonstrates between
 * loops and iterator pipelines: a manual range, two Fibonacci generators
 * (one owning its state, one advancing a state its caller owns), four ways
 * of summing an array, a `lines`/`trim`/`filter` pipeline and
 * `by_ref().take_while(..)`.
 */
module Iterators {
  import opened Wrappers
  import opened Decimal
  import Mandelbrot
  import Slices

  type usize = x: int | 0 <= x <= USIZE_MAX

  const U64_MAX: int := 0xFFFF_FFFF_FFFF_FFFF

  type u64 = x: int | 0 <= x <= U64_MAX

  // ---------------------------------------------------------------------
  // MyRange
  // ---------------------------------------------------------------------

  /** `MyRange { start, end }`: yields `start`, `start + 1`, ... below `end`. */
  class MyRange {
    var start: usize
    var end: usize

    constructor (start: usize, end: usize)
      ensures this.start == start && this.end == end
    {
      this.start := start;
      this.end := end;
    }

    /** `next`: the current start while it is below `end`, advancing it; `end` never moves. */
    method Next() returns (r: Option<usize>)
      modifies this
      ensures end == old(end)
      ensures old(start) < end ==> r == Some(old(start)) && start == old(start) + 1
      ensures old(start) >= end ==> r == None && start == old(start)
    {
      if start >= end {
        r := None;
      } else {
        r := Some(start);
        start := start + 1;
      }
    }
  }

  /** What the k-th of successive calls to `next` returns, from `{ start: s, end: e }`. */
  function RangeYields(s: nat, e: nat, n: nat): (ys: seq<Option<nat>>)
    ensures |ys| == n
  {
    seq(n, k => if s + k < e then Some(s + k) else None)
  }

  /** `n` calls to `next` yield `s`, ..., `e - 1` and then `None` for good. */
  method NextTimes(range: MyRange, n: nat) returns (ys: seq<Option<nat>>)
    modifies range
    ensures ys == RangeYields(old(range.start), old(range.end), n)
    ensures range.end == old(range.end)
    ensures range.start == if old(range.start) >= range.end then old(range.start)
                           else Slices.Min(old(range.start) + n, range.end)
  {
    ys := [];
    for i := 0 to n
      invariant range.end == old(range.end)
      invariant ys == RangeYields(old(range.start), range.end, i)
      invariant range.start == if old(range.start) >= range.end then old(range.start)
                               else Slices.Min(old(range.start) + i, range.end)
    {
      var y := range.Next();
      ys := ys + [match y case Some(v) => Some(v as nat) case None => None];
    }
  }

  /**
   * The manual-iterator demo of `main`: `{ start: 0, end: 10 }` yields 0 and
   * becomes `{ start: 1, end: 10 }`; with `start` then set to 11 it yields
   * `None` and stays `{ start: 11, end: 10 }`.
   */
  method MyRangeDemo() returns (first: Option<usize>, afterFirst: (usize, usize), second: Option<usize>, afterSecond: (usize, usize))
    ensures first == Some(0) && afterFirst == (1, 10)
    ensures second == None && afterSecond == (11, 10)
  {
    var range := new MyRange(0, 10);
    first := range.Next();
    afterFirst := (range.start, range.end);
    range.start := 11;
    second := range.Next();
    afterSecond := (range.start, range.end);
  }

  // ---------------------------------------------------------------------
  // Fibonacci generators
  // ---------------------------------------------------------------------

  /** The state after `n` steps from `(a, b)`, where a step turns `(x, y)` into `(y, x + y)`. */
  function FibState(a: nat, b: nat, n: nat): (nat, nat)
  {
    if n == 0 then (a, b)
    else var (x, y) := FibState(a, b, n - 1); (y, x + y)
  }

  /** The first `n` values yielded from state `(a, b)`: each is the second half of the new state. */
  function FibValues(a: nat, b: nat, n: nat): (vs: seq<nat>)
    ensures |vs| == n
  {
    if n == 0 then [] else FibValues(a, b, n - 1) + [FibState(a, b, n).1]
  }

  /** No value among the first `n` exceeds `u64::MAX`: `state.0 + state.1` would panic on overflow. */
  ghost predicate FitsU64(a: nat, b: nat, n: nat)
  {
    forall k :: 0 < k <= n ==> FibState(a, b, k).1 <= U64_MAX
  }

  /** Every value after the first two is the sum of the two before it. */
  lemma {:induction false} FibRecurrence(a: nat, b: nat, n: nat, k: nat)
    requires k + 2 < n
    ensures FibValues(a, b, n)[k + 2] == FibValues(a, b, n)[k] + FibValues(a, b, n)[k + 1]
  {
    FibValuesAt(a, b, n, k);
    FibValuesAt(a, b, n, k + 1);
    FibValuesAt(a, b, n, k + 2);
  }

  lemma {:induction false} FibValuesAt(a: nat, b: nat, n: nat, k: nat)
    requires k < n
    ensures FibValues(a, b, n)[k] == FibState(a, b, k + 1).1
    decreases n
  {
    if k < n - 1 {
      FibValuesAt(a, b, n - 1, k);
    }
  }

  /** After two or more steps the state is the last two values yielded. */
  lemma FibStateIsLastTwo(a: nat, b: nat, n: nat)
    requires n >= 2
    ensures FibState(a, b, n) == (FibValues(a, b, n)[n - 2], FibValues(a, b, n)[n - 1])
  {
    FibValuesAt(a, b, n, n - 2);
    FibValuesAt(a, b, n, n - 1);
  }

  /** The iterator of `fibonacci()`: it owns its state, which starts at `(0, 1)`. */
  class Fibonacci {
    var state: (u64, u64)

    constructor ()
      ensures state == (0, 1)
    {
      state := (0, 1);
    }

    /** One call of the closure: yields `state.0 + state.1` and shifts the state. */
    method Next() returns (r: Option<u64>)
      requires state.0 + state.1 <= U64_MAX
      modifies this
      ensures r == Some(old(state.0) + old(state.1))
      ensures state == (old(state.1), old(state.0) + old(state.1))
    {
      var next := state.0 + state.1;
      state := (state.1, next);
      r := Some(next);
    }
  }

  /** The caller's `(u64, u64)` that `fibonacci_mut` borrows mutably. */
  class FibPair {
    var pair: (u64, u64)

    constructor (pair: (u64, u64))
      ensures this.pair == pair
    {
      this.pair := pair;
    }
  }

  /** The iterator of `fibonacci_mut(&mut state)`: each step overwrites the caller's state. */
  class FibonacciMut {
    const state: FibPair

    constructor (state: FibPair)
      ensures this.state == state
    {
      this.state := state;
    }

    method Next() returns (r: Option<u64>)
      requires state.pair.0 + state.pair.1 <= U64_MAX
      modifies state
      ensures r == Some(old(state.pair.0) + old(state.pair.1))
      ensures state.pair == (old(state.pair.1), old(state.pair.0) + old(state.pair.1))
    {
      var next := state.pair.0 + state.pair.1;
      state.pair := (state.pair.1, next);
      r := Some(next);
    }
  }

  /** `fibonacci().take(n).collect()`. */
  method TakeFibonacci(it: Fibonacci, n: nat) returns (vs: seq<nat>)
    requires FitsU64(it.state.0, it.state.1, n)
    modifies it
    ensures vs == FibValues(old(it.state.0), old(it.state.1), n)
    ensures it.state == FibState(old(it.state.0), old(it.state.1), n)
  {
    vs := [];
    for i := 0 to n
      invariant vs == FibValues(old(it.state.0), old(it.state.1), i)
      invariant it.state == FibState(old(it.state.0), old(it.state.1), i)
    {
      assert FibState(old(it.state.0), old(it.state.1), i + 1).1 <= U64_MAX;
      var r := it.Next();
      vs := vs + [r.value];
    }
  }

  /** `fibonacci_mut(&mut state).take(n).collect()`: the same values, and the caller's state moves on. */
  method TakeFibonacciMut(it: FibonacciMut, n: nat) returns (vs: seq<nat>)
    requires FitsU64(it.state.pair.0, it.state.pair.1, n)
    modifies it.state
    ensures vs == FibValues(old(it.state.pair.0), old(it.state.pair.1), n)
    ensures it.state.pair == FibState(old(it.state.pair.0), old(it.state.pair.1), n)
  {
    vs := [];
    for i := 0 to n
      invariant vs == FibValues(old(it.state.pair.0), old(it.state.pair.1), i)
      invariant it.state.pair == FibState(old(it.state.pair.0), old(it.state.pair.1), i)
    {
      assert FibState(old(it.state.pair.0), old(it.state.pair.1), i + 1).1 <= U64_MAX;
      var r := it.Next();
      vs := vs + [r.value];
    }
  }

  lemma FirstTenFibonacci()
    ensures FibValues(0, 1, 10) == [1, 2, 3, 5, 8, 13, 21, 34, 55, 89]
    ensures FibState(0, 1, 10) == (55, 89)
    ensures FitsU64(0, 1, 10)
  {
    assert FibState(0, 1, 10) == (55, 89);
  }

  /**
   * The `from_fn` demo of `main`: ten values from each generator, the same
   * values, and the borrowed state left at `(55, 89)`.
   */
  method FibonacciDemo() returns (f: seq<nat>, g: seq<nat>, state: (u64, u64))
    ensures f == g == [1, 2, 3, 5, 8, 13, 21, 34, 55, 89]
    ensures state == (55, 89)
  {
    FirstTenFibonacci();
    var fib := new Fibonacci();
    f := TakeFibonacci(fib, 10);
    var pair := new FibPair((0, 1));
    var fibMut := new FibonacciMut(pair);
    g := TakeFibonacciMut(fibMut, 10);
    state := pair.pair;
  }

  // ---------------------------------------------------------------------
  // Sums over an array
  // ---------------------------------------------------------------------

  /** The sum of a sequence, element by element from the front. */
  function Sum(a: seq<int>): int
  {
    if a == [] then 0 else Sum(a[..|a| - 1]) + a[|a| - 1]
  }

  /** `for i in 0..a.len() { a[i] = i as i64 }`. */
  method FillWithIndices(a: array<int>)
    modifies a
    ensures a[..] == seq(a.Length, i => i)
  {
    for i := 0 to a.Length
      invariant a[..i] == seq(i, k => k)
    {
      a[i] := i;
      assert a[..i + 1] == a[..i] + [i];
    }
  }

  /** `for i in 0..n { sum += a[i] }`. */
  method SumIndexed(a: seq<int>) returns (sum: int)
    ensures sum == Sum(a)
  {
    sum := 0;
    for i := 0 to |a|
      invariant sum == Sum(a[..i])
    {
      assert a[..i + 1][..i] == a[..i];
      sum := sum + a[i];
    }
    assert a[..|a|] == a;
  }

  /** `(i..n).fold(acc, |sum, i| sum + a[i])`. */
  function FoldFrom(a: seq<int>, i: nat, acc: int): int
    requires i <= |a|
    decreases |a| - i
  {
    if i == |a| then acc else FoldFrom(a, i + 1, acc + a[i])
  }

  /** The fold from index `i`, started with the sum of what lies before it, is the whole sum. */
  lemma {:induction false} FoldFromIsSum(a: seq<int>, i: nat)
    requires i <= |a|
    ensures FoldFrom(a, i, Sum(a[..i])) == Sum(a)
    decreases |a| - i
  {
    if i == |a| {
      assert a[..i] == a;
    } else {
      assert a[..i + 1][..i] == a[..i];
      FoldFromIsSum(a, i + 1);
    }
  }

  /** `(0..a.len()).fold(0, |sum, i| sum + a[i])` equals the loop's sum. */
  lemma FoldIsSum(a: seq<int>)
    ensures FoldFrom(a, 0, 0) == Sum(a)
  {
    assert a[..0] == [];
    FoldFromIsSum(a, 0);
  }

  /** The iterator of `(&a).into_iter()`: a position in a slice it does not own. */
  class SliceIter<T> {
    const items: seq<T>
    var index: nat

    constructor (items: seq<T>)
      ensures this.items == items && index == 0
    {
      this.items := items;
      index := 0;
    }

    /** What the iterator has still to yield. */
    function Remaining(): seq<T>
      reads this
      requires index <= |items|
    {
      items[index..]
    }

    /** `next`: the element at the position, if any, advancing past it. */
    method Next() returns (r: Option<T>)
      requires index <= |items|
      modifies this
      ensures index <= |items|
      ensures old(Remaining()) == [] ==> r == None && index == old(index)
      ensures old(Remaining()) != [] ==> r == Some(old(Remaining())[0]) && Remaining() == old(Remaining())[1..]
      ensures old(index) < |items| ==> r == Some(items[old(index)]) && index == old(index) + 1
    {
      if index == |items| {
        r := None;
      } else {
        r := Some(items[index]);
        index := index + 1;
      }
    }
  }

  /**
   * `while let Some(i) = it.next() { sum += i }`, which is also what
   * `for i in &a { sum += i }` expands to.
   */
  method SumExplicitNext(a: seq<int>) returns (sum: int)
    ensures sum == Sum(a)
  {
    var it := new SliceIter(a);
    sum := 0;
    var next := it.Next();
    while next.Some?
      invariant 0 < it.index <= |a| || (it.index == |a| && next.None?)
      invariant next.Some? ==> next.value == a[it.index - 1] && sum == Sum(a[..it.index - 1])
      invariant next.None? ==> sum == Sum(a) && it.index == |a|
      decreases |a| - it.index, next.Some?
    {
      assert a[..it.index][..it.index - 1] == a[..it.index - 1];
      sum := sum + next.value;
      if it.index == |a| {
        assert a[..it.index] == a;
      }
      next := it.Next();
    }
  }

  /** Summing the indices `0..n` gives `n * (n - 1) / 2`. */
  lemma {:induction false} SumOfIndices(n: nat)
    ensures 2 * Sum(seq(n, i => i)) == n * (n - 1)
  {
    if n > 0 {
      assert seq(n, i => i)[..n - 1] == seq(n - 1, i => i);
      SumOfIndices(n - 1);
    }
  }

  /** The arrays of `main` hold `0..10_000`, whose sum, 49 995 000, fits an `i64`. */
  lemma MainSums()
    ensures Sum(seq(10_000, i => i)) == 49_995_000
  {
    SumOfIndices(10_000);
  }

  /** `successors(Some(0), |i| Some(i + 1)).take(n)` collects the same vector as `(0..n).collect()`. */
  lemma {:induction false} SuccessorsAreRange(from: int, n: nat)
    ensures Mandelbrot.TakeSuccessors(from, (i: int) => i + 1, n) == seq(n, k => from + k)
    decreases n
  {
    if n > 0 {
      SuccessorsAreRange(from + 1, n - 1);
    }
  }

  // ---------------------------------------------------------------------
  // lines, trim and filter
  // ---------------------------------------------------------------------

  /** `char::is_whitespace`, the Unicode White_Space property that `str::trim` strips. */
  predicate IsWhitespace(c: char)
  {
    ('\t' <= c <= '\r') || c == ' ' || c == '\U{85}' || c == '\U{A0}' || c == '\U{1680}' ||
    ('\U{2000}' <= c <= '\U{200A}') || c == '\U{2028}' || c == '\U{2029}' ||
    c == '\U{202F}' || c == '\U{205F}' || c == '\U{3000}'
  }

  /** `trim_start`: the longest suffix that does not start with whitespace. */
  function TrimStart(s: string): (r: string)
    ensures |r| <= |s| && r == s[|s| - |r|..]
    ensures forall k :: 0 <= k < |s| - |r| ==> IsWhitespace(s[k])
    ensures r != [] ==> !IsWhitespace(r[0])
  {
    if s != [] && IsWhitespace(s[0]) then TrimStart(s[1..]) else s
  }

  /** `trim_end`: the longest prefix that does not end with whitespace. */
  function TrimEnd(s: string): (r: string)
    ensures |r| <= |s| && r == s[..|r|]
    ensures forall k :: |r| <= k < |s| ==> IsWhitespace(s[k])
    ensures r != [] ==> !IsWhitespace(r[|r| - 1])
  {
    if s != [] && IsWhitespace(s[|s| - 1]) then TrimEnd(s[..|s| - 1]) else s
  }

  function Trim(s: string): string
  {
    TrimEnd(TrimStart(s))
  }

  /** A line without the `\r` of a `\r\n` ending. */
  function StripCarriageReturn(s: string): string
  {
    if s != [] && s[|s| - 1] == '\r' then s[..|s| - 1] else s
  }

  /**
   * `str::lines`: the text split at each `\n`, a `\r` before the `\n` dropped
   * too; a final line ending adds no empty line.
   */
  function Lines(s: string): (ls: seq<string>)
    ensures forall k :: 0 <= k < |ls| ==> '\n' !in ls[k]
    decreases |s|
  {
    if s == [] then []
    else match Mandelbrot.Find(s, '\n')
      case None => [s]
      case Some(k) => [StripCarriageReturn(s[..k])] + Lines(s[k + 1..])
  }

  function Map<X, Y>(f: X -> Y, xs: seq<X>): (ys: seq<Y>)
    ensures |ys| == |xs|
    ensures forall k :: 0 <= k < |xs| ==> ys[k] == f(xs[k])
  {
    if xs == [] then [] else Map(f, xs[..|xs| - 1]) + [f(xs[|xs| - 1])]
  }

  /** `Iterator::filter`, collected: the elements satisfying `p`, in input order. */
  function Filter<X>(p: X -> bool, xs: seq<X>): (ys: seq<X>)
    ensures |ys| <= |xs|
    ensures forall y :: y in ys ==> y in xs && p(y)
    ensures forall k :: 0 <= k < |xs| && p(xs[k]) ==> xs[k] in ys
    ensures |xs| == 1 ==> ys == (if p(xs[0]) then xs else [])
  {
    if xs == [] then []
    else
      var front := xs[..|xs| - 1];
      assert forall k :: 0 <= k < |front| ==> front[k] == xs[k];
      Filter(p, front) + (if p(xs[|xs| - 1]) then [xs[|xs| - 1]] else [])
  }

  /**
   * Filtering distributes over concatenation. With the one-element case in
   * `Filter`'s contract this fixes the result completely, order included.
   */
  lemma {:induction false} FilterAppend<X>(p: X -> bool, a: seq<X>, b: seq<X>)
    ensures Filter(p, a + b) == Filter(p, a) + Filter(p, b)
    decreases |b|
  {
    if b == [] {
      assert a + b == a;
    } else {
      var front, last := b[..|b| - 1], b[|b| - 1];
      var tail := if p(last) then [last] else [];
      assert (a + b)[..|a + b| - 1] == a + front;
      assert (a + b)[|a + b| - 1] == last;
      FilterAppend(p, a, front);
      assert Filter(p, a + b) == Filter(p, a + front) + tail;
      assert Filter(p, b) == Filter(p, front) + tail;
    }
  }

  predicate IsNotOf(s: string)
  {
    s != "of"
  }

  /** `text.lines().map(str::trim).filter(|s| *s != "of").collect()`. */
  function TrimmedLinesWithoutOf(text: string): seq<string>
  {
    Filter(IsNotOf, Map(Trim, Lines(text)))
  }

  /** The same vector built by the explicit `for line in text.lines()` loop. */
  method TrimmedLinesLoop(text: string) returns (v: seq<string>)
    ensures v == TrimmedLinesWithoutOf(text)
  {
    var lines := Lines(text);
    v := [];
    for i := 0 to |lines|
      invariant v == Filter(IsNotOf, Map(Trim, lines[..i]))
    {
      assert lines[..i + 1][..i] == lines[..i];
      assert Map(Trim, lines[..i + 1])[..i] == Map(Trim, lines[..i]);
      var line := Trim(lines[i]);
      if line != "of" {
        v := v + [line];
      }
    }
    assert lines[..|lines|] == lines;
  }

  predicate AllWhitespace(s: string)
  {
    forall k :: 0 <= k < |s| ==> IsWhitespace(s[k])
  }

  lemma {:induction false} TrimStartPadded(pre: string, rest: string)
    requires AllWhitespace(pre) && (rest == [] || !IsWhitespace(rest[0]))
    ensures TrimStart(pre + rest) == rest
    decreases |pre|
  {
    if pre != [] {
      assert (pre + rest)[1..] == pre[1..] + rest;
      TrimStartPadded(pre[1..], rest);
    }
  }

  lemma {:induction false} TrimEndPadded(rest: string, post: string)
    requires AllWhitespace(post) && (rest == [] || !IsWhitespace(rest[|rest| - 1]))
    ensures TrimEnd(rest + post) == rest
    decreases |post|
  {
    if post != [] {
      assert (rest + post)[..|rest + post| - 1] == rest + post[..|post| - 1];
      TrimEndPadded(rest, post[..|post| - 1]);
    }
  }

  /** `trim` strips the whitespace around a word that neither starts nor ends with whitespace. */
  lemma TrimPadded(pre: string, word: string, post: string)
    requires AllWhitespace(pre) && AllWhitespace(post)
    requires word != [] && !IsWhitespace(word[0]) && !IsWhitespace(word[|word| - 1])
    ensures Trim(pre + word + post) == word
  {
    assert pre + word + post == pre + (word + post);
    TrimStartPadded(pre, word + post);
    TrimEndPadded(word, post);
  }

  /** A line followed by `\n`: that line, then the lines of the rest. */
  lemma LinesCons(line: string, rest: string)
    requires '\n' !in line
    ensures Lines(line + "\n" + rest) == [StripCarriageReturn(line)] + Lines(rest)
  {
    var s := line + "\n" + rest;
    assert s[..|line|] == line;
    assert s[|line|] == '\n';
    Mandelbrot.FindAfter(s, '\n', |line|);
    assert s[|line| + 1..] == rest;
  }

  // ---------------------------------------------------------------------
  // by_ref and take_while
  // ---------------------------------------------------------------------

  predicate IsBlank(line: string)
  {
    line == []
  }

  /**
   * `lines.by_ref().take_while(|line| !line.is_empty()).collect()`: the lines
   * before the first empty one. `take_while` consumes that empty line, so
   * the iterator resumes after it; with no empty line it is exhausted.
   */
  method TakeWhileNotBlank(lines: SliceIter<string>) returns (headers: seq<string>)
    requires lines.index <= |lines.items|
    modifies lines
    ensures lines.index <= |lines.items|
    ensures match Mandelbrot.Position(old(lines.Remaining()), IsBlank)
            case None => headers == old(lines.Remaining()) && lines.Remaining() == []
            case Some(k) => headers == old(lines.Remaining())[..k] && lines.Remaining() == old(lines.Remaining())[k + 1..]
  {
    ghost var start := lines.index;
    ghost var rest := lines.Remaining();
    assert rest == lines.items[start..];
    headers := [];
    while true
      invariant start <= lines.index <= |lines.items|
      invariant headers == lines.items[start..lines.index]
      invariant forall j :: start <= j < lines.index ==> !IsBlank(lines.items[j])
      decreases |lines.items| - lines.index
    {
      var line := lines.Next();
      if line.None? {
        assert rest == headers;
        assert forall j :: 0 <= j < |rest| ==> !IsBlank(rest[j]);
        Mandelbrot.PositionAbsent(rest, IsBlank);
        return;
      }
      if IsBlank(line.value) {
        ghost var k := lines.index - 1 - start;
        assert rest[k] == line.value && IsBlank(rest[k]);
        assert forall j :: 0 <= j < k ==> !IsBlank(rest[j]);
        Mandelbrot.PositionFirst(rest, IsBlank, k);
        assert headers == rest[..k] && lines.Remaining() == rest[k + 1..];
        return;
      }
      headers := headers + [line.value];
    }
  }

  /** The text that writes each of `ls` followed by `\r\n`. */
  function CrlfTerminated(ls: seq<string>): string
  {
    if ls == [] then "" else ls[0] + "\r\n" + CrlfTerminated(ls[1..])
  }

  /** `lines` undoes writing lines one per `\r\n`. */
  lemma {:induction false} LinesOfCrlfTerminated(ls: seq<string>)
    requires forall k :: 0 <= k < |ls| ==> '\n' !in ls[k]
    ensures Lines(CrlfTerminated(ls)) == ls
  {
    if ls != [] {
      LinesOfCrlfTerminated(ls[1..]);
      var line := ls[0] + "\r";
      assert ls[0] + "\r\n" == line + "\n";
      assert line[..|line| - 1] == ls[0];
      LinesCons(line, CrlfTerminated(ls[1..]));
    }
  }

  /** The lines of the message in `main`: two headers, a blank line, two body lines. */
  const MESSAGE_LINES: seq<string> :=
    ["To: jimb", "From: superego <junk@gmail.com>", "", "Oooh this is the body", "Get some donuts on the way home."]

  /** The message of `main`: each of its lines ended by `\r\n`. */
  const MESSAGE: string := CrlfTerminated(MESSAGE_LINES)

  lemma FromLineHasNoNewline()
    ensures '\n' !in "From: superego <junk@gmail.com>"
  {
  }

  /** The message splits back into its five lines. */
  lemma MessageLines()
    ensures Lines(MESSAGE) == MESSAGE_LINES
  {
    FromLineHasNoNewline();
    LinesOfCrlfTerminated(MESSAGE_LINES);
  }

  /**
   * The `by_ref` demo of `main`: `take_while` collects the two header lines,
   * and the same iterator then yields the two body lines.
   */
  method ByRefDemo() returns (headers: seq<string>, body: seq<string>)
    ensures headers == ["To: jimb", "From: superego <junk@gmail.com>"]
    ensures body == ["Oooh this is the body", "Get some donuts on the way home."]
  {
    MessageLines();
    var all := Lines(MESSAGE);
    assert !IsBlank(all[0]) && !IsBlank(all[1]) && IsBlank(all[2]);
    assert Mandelbrot.Position(all, IsBlank) == Some(2);
    var lines := new SliceIter(all);
    headers := TakeWhileNotBlank(lines);
    body := lines.Remaining();
  }
}
