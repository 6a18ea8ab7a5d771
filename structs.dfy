/**
 * Structs: a first-in first-out queue kept as two stacks, scans for the
 * least and greatest element of a slice, and the broom-splitting `chob`.
 */
module Structs {
  import opened Wrappers

  /** `Vec::reverse`, as a value. */
  function Reverse<T>(s: seq<T>): (r: seq<T>)
    ensures |r| == |s|
    ensures forall i :: 0 <= i < |s| ==> r[i] == s[|s| - 1 - i]
  {
    if s == [] then [] else Reverse(s[1..]) + [s[0]]
  }

  /** Reversing twice gives the sequence back. */
  lemma ReverseReverse<T>(s: seq<T>)
    ensures Reverse(Reverse(s)) == s
  {
    var r := Reverse(Reverse(s));
    assert |r| == |s|;
    forall i | 0 <= i < |s|
      ensures r[i] == s[i]
    {
      assert r[i] == Reverse(s)[|s| - 1 - i];
    }
  }

  /** The last element comes first in the reversal, followed by the reversed rest. */
  lemma {:induction false} ReverseLast<T>(s: seq<T>)
    requires s != []
    ensures Reverse(s) == [s[|s| - 1]] + Reverse(s[..|s| - 1])
    decreases |s|
  {
    if |s| > 1 {
      var last, front, tail := s[|s| - 1], s[..|s| - 1], s[1..];
      ReverseLast(tail);
      assert tail[|tail| - 1] == last;
      assert tail[..|tail| - 1] == front[1..];
      assert front[0] == s[0];
      var middle := Reverse(front[1..]);
      assert Reverse(s) == ([last] + middle) + [s[0]];
      assert Reverse(front) == middle + [s[0]];
    }
  }

  // ---------------------------------------------------------------------
  // Queue
  // ---------------------------------------------------------------------

  /**
   * A queue as two stacks: `older` holds the front of the queue with the
   * eldest element last, `younger` the back with the youngest last.
   */
  class Queue<T> {
    var older: seq<T>
    var younger: seq<T>

    /** The queue's elements, front first. */
    function Contents(): seq<T>
      reads this
    {
      Reverse(older) + younger
    }

    /** `Queue::new`. */
    constructor ()
      ensures older == [] && younger == []
      ensures Contents() == []
    {
      older := [];
      younger := [];
    }

    /** `push`: the new element goes to the back. */
    method Push(c: T)
      modifies this
      ensures older == old(older) && younger == old(younger) + [c]
      ensures Contents() == old(Contents()) + [c]
    {
      younger := younger + [c];
    }

    /** `is_empty`: both stacks are empty, which is exactly an empty queue. */
    function IsEmpty(): (b: bool)
      reads this
      ensures b <==> Contents() == []
    {
      older == [] && younger == []
    }

    /**
     * `pop`: the front element, if any. When `older` is empty the younger
     * stack is first swapped into it and reversed.
     */
    method Pop() returns (r: Option<T>)
      modifies this
      ensures old(Contents()) == [] ==> r == None && older == old(older) && younger == old(younger)
      ensures old(Contents()) != [] ==> r == Some(old(Contents())[0]) && Contents() == old(Contents())[1..]
      ensures old(older) != [] ==> older == old(older)[..|old(older)| - 1] && younger == old(younger)
      ensures old(older) == [] && old(younger) != [] ==>
                older == Reverse(old(younger))[..|old(younger)| - 1] && younger == []
    {
      ghost var before := Contents();
      if older == [] {
        if younger == [] {
          return None;
        }
        older, younger := younger, older;
        ReverseReverse(older);
        older := Reverse(older);
        assert Contents() == before;
      }
      var last := older[|older| - 1];
      ReverseLast(older);
      r := Some(last);
      older := older[..|older| - 1];
      assert before == [last] + Contents();
    }

    /** `split`: the two stacks as they are, `older` first. */
    method Split() returns (o: seq<T>, y: seq<T>)
      ensures o == older && y == younger
      ensures Reverse(o) + y == Contents()
    {
      o, y := older, younger;
    }
  }

  /**
   * The queue demo in `main`: push '0' and '1', pop, push '=', then pop
   * until empty.
   */
  method QueueDemo() returns (emptyAfterPushes: bool, pops: seq<Option<char>>, emptyAtEnd: bool)
    ensures !emptyAfterPushes
    ensures pops == [Some('0'), Some('1'), Some('='), None]
    ensures emptyAtEnd
  {
    var q := new Queue<char>();
    q.Push('0');
    q.Push('1');
    emptyAfterPushes := q.IsEmpty();
    var a := q.Pop();
    q.Push('=');
    var b := q.Pop();
    var c := q.Pop();
    var d := q.Pop();
    pops := [a, b, c, d];
    emptyAtEnd := q.IsEmpty();
  }

  /**
   * The split demo: push '0', '1', '2', pop one, push '='. The older stack
   * is ['2', '1'] (front last) and the younger ['=']. `main` binds the
   * first of the pair to a variable named `younger`, though it is `older`.
   */
  method SplitDemo() returns (o: seq<char>, y: seq<char>)
    ensures o == ['2', '1'] && y == ['=']
  {
    var q := new Queue<char>();
    q.Push('0');
    q.Push('1');
    q.Push('2');
    var _ := q.Pop();
    q.Push('=');
    o, y := q.Split();
  }

  /** The boxed queue demo: empty when new, not empty after one push. */
  method BoxedQueueDemo() returns (before: bool, after: bool)
    ensures before && !after
  {
    var bq := new Queue<int>();
    before := bq.IsEmpty();
    bq.Push(1);
    after := bq.IsEmpty();
  }

  // ---------------------------------------------------------------------
  // find_extrema and find_extrema_ref
  // ---------------------------------------------------------------------

  /**
   * `find_extrema_ref`: the positions of the least and greatest elements.
   * Strict comparisons keep the earliest position among equal elements.
   */
  method FindExtremaRef(slice: seq<int>) returns (greatest: nat, least: nat)
    requires |slice| > 0
    ensures greatest < |slice| && least < |slice|
    ensures forall j :: 0 <= j < |slice| ==> slice[least] <= slice[j] <= slice[greatest]
    ensures forall j :: 0 <= j < least ==> slice[j] > slice[least]
    ensures forall j :: 0 <= j < greatest ==> slice[j] < slice[greatest]
  {
    greatest, least := 0, 0;
    for i := 1 to |slice|
      invariant greatest < i && least < i
      invariant forall j :: 0 <= j < i ==> slice[least] <= slice[j] <= slice[greatest]
      invariant forall j :: 0 <= j < least ==> slice[j] > slice[least]
      invariant forall j :: 0 <= j < greatest ==> slice[j] < slice[greatest]
    {
      if slice[i] < slice[least] {
        least := i;
      }
      if slice[i] > slice[greatest] {
        greatest := i;
      }
    }
  }

  /** `find_extrema`: the least and greatest values, each of which occurs in the slice. */
  method FindExtrema(slice: seq<int>) returns (greatest: int, least: int)
    requires |slice| > 0
    ensures greatest in slice && least in slice
    ensures forall x :: x in slice ==> least <= x <= greatest
  {
    greatest, least := slice[0], slice[0];
    for i := 1 to |slice|
      invariant greatest in slice[..i] && least in slice[..i]
      invariant forall j :: 0 <= j < i ==> least <= slice[j] <= greatest
    {
      if slice[i] < least {
        least := slice[i];
      }
      if slice[i] > greatest {
        greatest := slice[i];
      }
    }
    assert slice[..|slice|] == slice;
  }

  // ---------------------------------------------------------------------
  // Broom and chob
  // ---------------------------------------------------------------------

  datatype BroomIntent = FetchWater | DumpWater

  type u32 = x: int | 0 <= x < 0x1_0000_0000

  /** A broom; `position` is carried along unchanged and its coordinates are never computed with. */
  datatype Broom = Broom(name: string, height: u32, health: u32, position: (real, real, real), intent: BroomIntent)

  const BROOM_NAME: string := "BROOM"

  /** `chob`: two brooms of half the height, named with " I" and " II", otherwise copies. */
  function Chob(b: Broom): (halves: (Broom, Broom))
    ensures halves.0.height == halves.1.height
    ensures halves.0.height + halves.1.height <= b.height <= halves.0.height + halves.1.height + 1
    ensures halves.0.name == b.name + " I" && halves.1.name == b.name + " II"
    ensures halves.0 == b.(name := halves.0.name, height := halves.0.height)
    ensures halves.1 == b.(name := halves.1.name, height := halves.1.height)
  {
    var broom1 := b.(height := b.height / 2);
    var broom2 := broom1.(name := broom1.name);
    (broom1.(name := broom1.name + " I"), broom2.(name := broom2.name + " II"))
  }

  /** The broom of `main`, 60 high, becomes two of height 30. */
  lemma ChobDemo()
    ensures var (b1, b2) := Chob(Broom(BROOM_NAME, 60, 100, (100.0, 200.0, 0.0), FetchWater));
            b1 == Broom("BROOM I", 30, 100, (100.0, 200.0, 0.0), FetchWater) &&
            b2 == Broom("BROOM II", 30, 100, (100.0, 200.0, 0.0), FetchWater)
  {
  }
}
