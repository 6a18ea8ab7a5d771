/**
 * Counting votes in a hash map, once with `entry().and_modify().or_insert()`
 * and once with `entry().or_insert(0)` followed by `+= 1`.
 *
 * A Dafny `map` stands for the hash map; which hasher builds it (the
 * standard one, FNV or AHash) changes nothing about its contents.
 */
module Collections {

  /** The map after counting `ballots` one name at a time, left to right. */
  function Tally(ballots: seq<string>): map<string, nat>
  {
    if ballots == [] then map[]
    else
      var counts := Tally(ballots[..|ballots| - 1]);
      var name := ballots[|ballots| - 1];
      counts[name := if name in counts then counts[name] + 1 else 1]
  }

  /** The counted names are the names on the ballots, each with its number of occurrences. */
  lemma {:induction false} TallyCounts(ballots: seq<string>)
    ensures Tally(ballots).Keys == set name | name in ballots
    ensures forall name :: name in Tally(ballots) ==> Tally(ballots)[name] == multiset(ballots)[name]
  {
    if ballots != [] {
      var front := ballots[..|ballots| - 1];
      TallyCounts(front);
      assert ballots == front + [ballots[|ballots| - 1]];
      assert multiset(ballots) == multiset(front) + multiset{ballots[|ballots| - 1]};
    }
  }

  /** Every count is at least one. */
  lemma TallyPositive(ballots: seq<string>)
    ensures forall name :: name in Tally(ballots) ==> Tally(ballots)[name] >= 1
  {
    TallyCounts(ballots);
    forall name | name in Tally(ballots)
      ensures Tally(ballots)[name] >= 1
    {
      assert name in ballots;
    }
  }

  /** The sum of a map's counts. */
  ghost function SumCounts(counts: map<string, nat>): nat
    decreases |counts|
  {
    if counts == map[] then 0
    else
      var name :| name in counts;
      counts[name] + SumCounts(counts - {name})
  }

  /** Any one count can be taken out of the sum first. */
  lemma {:induction false} SumCountsRemove(counts: map<string, nat>, name: string)
    requires name in counts
    ensures SumCounts(counts) == counts[name] + SumCounts(counts - {name})
    decreases |counts|
  {
    var first :| first in counts && SumCounts(counts) == counts[first] + SumCounts(counts - {first});
    if first != name {
      SumCountsRemove(counts - {first}, name);
      SumCountsRemove(counts - {name}, first);
      assert counts - {first} - {name} == counts - {name} - {first};
    }
  }

  /** The counts add up to the number of ballots. */
  lemma {:induction false} TallySum(ballots: seq<string>)
    ensures SumCounts(Tally(ballots)) == |ballots|
  {
    if ballots != [] {
      var front := ballots[..|ballots| - 1];
      var name := ballots[|ballots| - 1];
      var counts := Tally(front);
      TallySum(front);
      var next := Tally(ballots);
      SumCountsRemove(next, name);
      assert next - {name} == counts - {name};
      if name in counts {
        SumCountsRemove(counts, name);
      } else {
        assert counts - {name} == counts;
      }
    }
  }

  /** The `entry(name).and_modify(|count| *count += 1).or_insert(1)` loop. */
  method CountVotesAndModify(ballots: seq<string>) returns (counts: map<string, nat>)
    ensures counts.Keys == set name | name in ballots
    ensures forall name :: name in counts ==> counts[name] == multiset(ballots)[name]
    ensures SumCounts(counts) == |ballots|
  {
    counts := map[];
    for i := 0 to |ballots|
      invariant counts == Tally(ballots[..i])
    {
      assert ballots[..i + 1][..i] == ballots[..i];
      var name := ballots[i];
      if name in counts {
        counts := counts[name := counts[name] + 1];
      } else {
        counts := counts[name := 1];
      }
    }
    assert ballots[..|ballots|] == ballots;
    TallyCounts(ballots);
    TallySum(ballots);
  }

  /** The `*vote_counts.entry(name).or_insert(0) += 1` loop. */
  method CountVotesOrInsert(ballots: seq<string>) returns (counts: map<string, nat>)
    ensures counts.Keys == set name | name in ballots
    ensures forall name :: name in counts ==> counts[name] == multiset(ballots)[name]
    ensures SumCounts(counts) == |ballots|
  {
    counts := map[];
    for i := 0 to |ballots|
      invariant counts == Tally(ballots[..i])
    {
      assert ballots[..i + 1][..i] == ballots[..i];
      var name := ballots[i];
      if name !in counts {
        counts := counts[name := 0];
      }
      counts := counts[name := counts[name] + 1];
    }
    assert ballots[..|ballots|] == ballots;
    TallyCounts(ballots);
    TallySum(ballots);
  }

  /** The ballots of `main`. */
  const BALLOTS: seq<string> := ["bob", "john", "anna", "bob", "anna", "anna"]

  /** Three names on them: anna three times, bob twice, john once. */
  lemma BallotNames()
    ensures (set name | name in BALLOTS) == {"bob", "john", "anna"}
    ensures multiset(BALLOTS)["bob"] == 2 && multiset(BALLOTS)["john"] == 1 && multiset(BALLOTS)["anna"] == 3
  {
    assert multiset(BALLOTS) == multiset{"bob", "john", "anna", "bob", "anna", "anna"};
  }

  /** Either loop counts anna 3, bob 2 and john 1. */
  method CountingDemo() returns (viaAndModify: map<string, nat>, viaOrInsert: map<string, nat>)
    ensures viaAndModify == viaOrInsert == map["bob" := 2, "john" := 1, "anna" := 3]
  {
    BallotNames();
    viaAndModify := CountVotesAndModify(BALLOTS);
    viaOrInsert := CountVotesOrInsert(BALLOTS);
  }
}
