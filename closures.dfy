/**
 * Cities sorted by a key closure and updated by a closure called twice.
 *
 * `sort_by_key` is a stable sort; `SortByKey` is the stable insertion sort
 * that gives the same result, and the lemmas below say what that result is:
 * ordered by the key, a permutation of the input, and, among cities with
 * the same key, in the input's order.
 */
module Closures {
  import opened Slices

  const I64_MIN: int := -0x8000_0000_0000_0000
  const I64_MAX: int := 0x7FFF_FFFF_FFFF_FFFF

  type i64 = x: int | I64_MIN <= x <= I64_MAX

  datatype City = City(name: string, population: i64, country: string)

  // ---------------------------------------------------------------------
  // Stable sorting by a key
  // ---------------------------------------------------------------------

  /** The keys never decrease along `cs`. */
  predicate SortedByKey(cs: seq<City>, key: City -> int)
  {
    forall i, j :: 0 <= i < j < |cs| ==> key(cs[i]) <= key(cs[j])
  }

  /** The cities of `cs` whose key is `k`, in order. */
  function WithKey(cs: seq<City>, key: City -> int, k: int): seq<City>
  {
    if cs == [] then []
    else (if key(cs[0]) == k then [cs[0]] else []) + WithKey(cs[1..], key, k)
  }

  /** `c` goes before the first city whose key is not smaller than its own. */
  function InsertByKey(c: City, s: seq<City>, key: City -> int): (r: seq<City>)
    ensures multiset(r) == multiset(s) + multiset{c}
  {
    if s == [] || key(c) <= key(s[0]) then [c] + s
    else
      assert s == [s[0]] + s[1..];
      [s[0]] + InsertByKey(c, s[1..], key)
  }

  /** `slice::sort_by_key`: each city is inserted in front of the sorted rest. */
  function SortByKey(cs: seq<City>, key: City -> int): (r: seq<City>)
    ensures multiset(r) == multiset(cs)
  {
    if cs == [] then []
    else
      assert cs == [cs[0]] + cs[1..];
      InsertByKey(cs[0], SortByKey(cs[1..], key), key)
  }

  lemma {:induction false} InsertKeepsSorted(c: City, s: seq<City>, key: City -> int)
    requires SortedByKey(s, key)
    ensures SortedByKey(InsertByKey(c, s, key), key)
  {
    if s != [] && key(c) > key(s[0]) {
      TailSorted(s, key);
      InsertKeepsSorted(c, s[1..], key);
      var rest := InsertByKey(c, s[1..], key);
      InsertMembers(c, s[1..], key);
      HeadBound(s, key);
      ConsSorted(s[0], rest, key);
    }
  }

  /** The cities after insertion are the inserted one and those already there. */
  lemma {:induction false} InsertMembers(c: City, s: seq<City>, key: City -> int)
    ensures forall x :: x in InsertByKey(c, s, key) ==> x == c || x in s
  {
    if s != [] && key(c) > key(s[0]) {
      InsertMembers(c, s[1..], key);
    }
  }

  lemma TailSorted(s: seq<City>, key: City -> int)
    requires s != [] && SortedByKey(s, key)
    ensures SortedByKey(s[1..], key)
  {
    forall i, j | 0 <= i < j < |s| - 1
      ensures key(s[1..][i]) <= key(s[1..][j])
    {
      assert s[1..][i] == s[i + 1] && s[1..][j] == s[j + 1];
    }
  }

  /** In a sorted list the first key bounds every later one. */
  lemma HeadBound(s: seq<City>, key: City -> int)
    requires s != [] && SortedByKey(s, key)
    ensures forall y :: y in s[1..] ==> key(s[0]) <= key(y)
  {
    forall y | y in s[1..]
      ensures key(s[0]) <= key(y)
    {
      var j :| 0 <= j < |s| - 1 && s[1..][j] == y;
      assert s[j + 1] == y;
    }
  }

  lemma ConsSorted(h: City, rest: seq<City>, key: City -> int)
    requires SortedByKey(rest, key)
    requires forall y :: y in rest ==> key(h) <= key(y)
    ensures SortedByKey([h] + rest, key)
  {
    var r := [h] + rest;
    forall i, j | 0 <= i < j < |r|
      ensures key(r[i]) <= key(r[j])
    {
      assert r[j] == rest[j - 1];
      if i > 0 {
        assert r[i] == rest[i - 1];
      }
    }
  }

  /** The sorted result is ordered by the key. */
  lemma {:induction false} SortIsSorted(cs: seq<City>, key: City -> int)
    ensures SortedByKey(SortByKey(cs, key), key)
  {
    if cs != [] {
      SortIsSorted(cs[1..], key);
      InsertKeepsSorted(cs[0], SortByKey(cs[1..], key), key);
    }
  }

  /** The cities with key `k` of a list with `x` in front. */
  lemma WithKeyCons(x: City, s: seq<City>, key: City -> int, k: int)
    ensures WithKey([x] + s, key, k) == (if key(x) == k then [x] else []) + WithKey(s, key, k)
  {
    assert ([x] + s)[0] == x && ([x] + s)[1..] == s;
  }

  /** Two fronts of which one is empty can be swapped. */
  lemma SwapEmptyFront<T>(f: seq<T>, m: seq<T>, w: seq<T>)
    requires f == [] || m == []
    ensures f + (m + w) == m + (f + w)
  {
  }

  /** One step of the insertion past a head city of smaller key. */
  lemma WithKeyStep(c: City, s: seq<City>, rest: seq<City>, key: City -> int, k: int)
    requires s != [] && key(s[0]) < key(c)
    requires WithKey(rest, key, k) == (if key(c) == k then [c] else []) + WithKey(s[1..], key, k)
    ensures WithKey([s[0]] + rest, key, k) == (if key(c) == k then [c] else []) + WithKey(s, key, k)
  {
    var mine := if key(c) == k then [c] else [];
    var first := if key(s[0]) == k then [s[0]] else [];
    var later := WithKey(s[1..], key, k);
    WithKeyCons(s[0], rest, key, k);
    assert WithKey(s, key, k) == first + later;
    SwapEmptyFront(first, mine, later);
  }

  /** Inserting `c` puts it in front of every city with the same key. */
  lemma {:induction false} InsertWithKey(c: City, s: seq<City>, key: City -> int, k: int)
    ensures WithKey(InsertByKey(c, s, key), key, k) == (if key(c) == k then [c] else []) + WithKey(s, key, k)
  {
    if s == [] || key(c) <= key(s[0]) {
      WithKeyCons(c, s, key, k);
    } else {
      var rest := InsertByKey(c, s[1..], key);
      assert InsertByKey(c, s, key) == [s[0]] + rest;
      InsertWithKey(c, s[1..], key, k);
      WithKeyStep(c, s, rest, key, k);
    }
  }

  /** Stability: the cities sharing a key come out in the order they went in. */
  lemma {:induction false} SortIsStable(cs: seq<City>, key: City -> int, k: int)
    ensures WithKey(SortByKey(cs, key), key, k) == WithKey(cs, key, k)
  {
    if cs != [] {
      SortIsStable(cs[1..], key, k);
      InsertWithKey(cs[0], SortByKey(cs[1..], key), key, k);
    }
  }

  /** Two keys that agree on every city sort every list the same way. */
  lemma {:induction false} SortByKeyCongruent(cs: seq<City>, key1: City -> int, key2: City -> int)
    requires forall c :: key1(c) == key2(c)
    ensures SortByKey(cs, key1) == SortByKey(cs, key2)
  {
    if cs != [] {
      SortByKeyCongruent(cs[1..], key1, key2);
      InsertCongruent(cs[0], SortByKey(cs[1..], key1), key1, key2);
    }
  }

  lemma {:induction false} InsertCongruent(c: City, s: seq<City>, key1: City -> int, key2: City -> int)
    requires forall x :: key1(x) == key2(x)
    ensures InsertByKey(c, s, key1) == InsertByKey(c, s, key2)
  {
    if s != [] && key1(c) > key1(s[0]) {
      InsertCongruent(c, s[1..], key1, key2);
    }
  }

  // ---------------------------------------------------------------------
  // sort_cities and start_sorting_thread
  // ---------------------------------------------------------------------

  /** The key of `sort_cities`, `|city| -city.population`. */
  function PopulationKey(c: City): int
  {
    -(c.population as int)
  }

  /** `-city.population` overflows, and panics, only for `i64::MIN`. */
  predicate KeysFit(cs: seq<City>)
  {
    forall i :: 0 <= i < |cs| ==> cs[i].population != I64_MIN
  }

  /** The cities with a given population, in order. */
  function WithPopulation(cs: seq<City>, p: int): seq<City>
  {
    WithKey(cs, PopulationKey, -p)
  }

  /**
   * What `sort_cities` makes of a list: the largest population first, the
   * same cities, and cities of equal population in their original order.
   */
  function SortedCities(cs: seq<City>): (r: seq<City>)
    ensures multiset(r) == multiset(cs)
    ensures forall i, j :: 0 <= i < j < |r| ==> r[i].population >= r[j].population
    ensures forall p :: WithPopulation(r, p) == WithPopulation(cs, p)
  {
    PopulationSorted(cs);
    PopulationStable(cs);
    SortByKey(cs, PopulationKey)
  }

  lemma PopulationSorted(cs: seq<City>)
    ensures forall i, j :: 0 <= i < j < |SortByKey(cs, PopulationKey)| ==>
              SortByKey(cs, PopulationKey)[i].population >= SortByKey(cs, PopulationKey)[j].population
  {
    SortIsSorted(cs, PopulationKey);
  }

  lemma PopulationStable(cs: seq<City>)
    ensures forall p :: WithPopulation(SortByKey(cs, PopulationKey), p) == WithPopulation(cs, p)
  {
    forall p
      ensures WithPopulation(SortByKey(cs, PopulationKey), p) == WithPopulation(cs, p)
    {
      SortIsStable(cs, PopulationKey, -p);
    }
  }

  /** `sort_cities`: the vector is sorted in place. */
  method SortCities(cities: array<City>)
    requires KeysFit(cities[..])
    modifies cities
    ensures cities[..] == SortedCities(old(cities[..]))
  {
    var sorted := SortedCities(cities[..]);
    assert |sorted| == |multiset(sorted)| == cities.Length;
    forall i | 0 <= i < cities.Length {
      cities[i] := sorted[i];
    }
  }

  /** The key closure moved into the sorting thread. */
  const KEY_FN: City -> int := (city: City) => -(city.population as int)

  /** `start_sorting_thread`, joined: the thread's sort puts the cities in the order `sort_cities` does. */
  function StartSortingThread(cities: seq<City>): (r: seq<City>)
    requires KeysFit(cities)
    ensures r == SortedCities(cities)
  {
    SortByKeyCongruent(cities, KEY_FN, PopulationKey);
    SortByKey(cities, KEY_FN)
  }

  // ---------------------------------------------------------------------
  // update_population and call_twice
  // ---------------------------------------------------------------------

  /** Rust's `/` on integers: the quotient truncated toward zero. */
  function TruncDiv(a: int, d: int): (q: int)
    requires d > 0
    ensures a >= 0 ==> 0 <= a - q * d < d
    ensures a < 0 ==> -d < a - q * d <= 0
  {
    if a >= 0 then a / d else -((-a) / d)
  }

  /** `city.population /= 100`. */
  function Shrunk(c: City): City
  {
    c.(population := TruncDiv(c.population, 100))
  }

  /** The body of `update_population`: every city's population is divided by 100. */
  method UpdatePopulation(cities: array<City>)
    modifies cities
    ensures forall i :: 0 <= i < cities.Length ==> cities[i] == Shrunk(old(cities[i]))
  {
    for i := 0 to cities.Length
      invariant forall j :: 0 <= j < i ==> cities[j] == Shrunk(old(cities[j]))
      invariant forall j :: i <= j < cities.Length ==> cities[j] == old(cities[j])
    {
      cities[i] := Shrunk(cities[i]);
    }
  }

  /** `call_twice(update_population)`: the closure runs twice, one division after the other. */
  method CallTwice(cities: array<City>)
    modifies cities
    ensures forall i :: 0 <= i < cities.Length ==> cities[i] == Shrunk(Shrunk(old(cities[i])))
  {
    UpdatePopulation(cities);
    UpdatePopulation(cities);
  }

  /** Two truncating divisions by 100 are one by 10000; name and country are untouched. */
  lemma ShrunkTwice(c: City)
    ensures Shrunk(Shrunk(c)).population == TruncDiv(c.population, 10000)
    ensures Shrunk(Shrunk(c)).name == c.name && Shrunk(Shrunk(c)).country == c.country
  {
    if c.population >= 0 {
      DivDiv(c.population, 100, 100);
    } else {
      DivDiv(-(c.population as int), 100, 100);
    }
  }

  /** `(n / a) / b == n / (a * b)` on naturals. */
  lemma DivDiv(n: nat, a: nat, b: nat)
    requires a > 0 && b > 0
    ensures (n / a) / b == n / (a * b)
  {
    var q, r := n / a, n % a;
    var q2, r2 := q / b, q % b;
    DivMod(n, a);
    DivMod(q, b);
    assert q * a == (q2 * b + r2) * a;
    assert (q2 * b + r2) * a == q2 * (a * b) + r2 * a;
    MulMonotone(r2, b - 1, a);
    assert (b - 1) * a == a * b - a;
    DivUnique(n, a * b, q2, r2 * a + r);
  }

  // ---------------------------------------------------------------------
  // main
  // ---------------------------------------------------------------------

  function Dublin(): City { City("Dublin", 1_000_000, "Ireland") }
  function Belfast(): City { City("Belfast", 500_000, "Ireland") }
  function London(): City { City("London", 10_000_000, "England") }

  /** The three cities of `main` sort to London, Dublin, Belfast. */
  lemma SortedDemo()
    ensures SortedCities([Dublin(), Belfast(), London()]) == [London(), Dublin(), Belfast()]
  {
    assert [Belfast(), London()][1..] == [London()];
    assert SortByKey([London()], PopulationKey) == [London()];
    assert InsertByKey(Belfast(), [London()], PopulationKey) == [London(), Belfast()];
    assert SortByKey([Belfast(), London()], PopulationKey) == [London(), Belfast()];
    assert InsertByKey(Dublin(), [Belfast()], PopulationKey) == [Dublin(), Belfast()];
    assert InsertByKey(Dublin(), [London(), Belfast()], PopulationKey) == [London(), Dublin(), Belfast()];
    assert [Dublin(), Belfast(), London()][1..] == [Belfast(), London()];
  }

  /** The sorting thread hands the same three cities back in the same order. */
  lemma ThreadSortedDemo()
    ensures StartSortingThread([Dublin(), Belfast(), London()]) == [London(), Dublin(), Belfast()]
  {
    SortedDemo();
  }

  /** After `call_twice(update_population)` the populations are 100, 50 and 1000. */
  method UpdateDemo() returns (updated: seq<City>)
    ensures updated == [City("Dublin", 100, "Ireland"), City("Belfast", 50, "Ireland"), City("London", 1000, "England")]
  {
    var cities := new City[3];
    cities[0], cities[1], cities[2] := Dublin(), Belfast(), London();
    CallTwice(cities);
    updated := cities[..];
  }
}
