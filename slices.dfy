/**
 * `slice.chunks(size)` and `slice.chunks_mut(size)`: a slice cut into
 * consecutive pieces of `size` elements, the last one possibly shorter.
 * A chunk is described here by its contents; `chunks_mut` hands out the same
 * index ranges as mutable views.
 */
module Slices {

  function Min(a: int, b: int): int
  {
    if a <= b then a else b
  }

  function Chunks<T>(s: seq<T>, size: nat): (r: seq<seq<T>>)
    requires size > 0
    ensures r == [] <==> s == []
    decreases |s|
  {
    if s == [] then []
    else if |s| <= size then [s]
    else [s[..size]] + Chunks(s[size..], size)
  }

  /** Concatenation of a sequence of pieces. */
  function Flatten<T>(ss: seq<seq<T>>): seq<T>
  {
    if ss == [] then [] else ss[0] + Flatten(ss[1..])
  }

  /** The chunks of a slice, put back together, are the slice itself. */
  lemma {:induction false} FlattenChunks<T>(s: seq<T>, size: nat)
    requires size > 0
    ensures Flatten(Chunks(s, size)) == s
    decreases |s|
  {
    if s != [] && |s| > size {
      FlattenChunks(s[size..], size);
      assert Chunks(s, size)[1..] == Chunks(s[size..], size);
      assert s[..size] + s[size..] == s;
    } else if s != [] {
      assert Chunks(s, size)[1..] == [];
    }
  }

  /** Chunk k covers the indices [k * size, min(k * size + size, |s|)). */
  lemma {:induction false} ChunkAt<T>(s: seq<T>, size: nat, k: nat)
    requires size > 0 && k < |Chunks(s, size)|
    ensures k * size < |s|
    ensures Chunks(s, size)[k] == s[k * size .. Min(k * size + size, |s|)]
    decreases |s|
  {
    if k == 0 {
      assert k * size == 0;
      if |s| <= size {
        assert Chunks(s, size) == [s];
        assert Min(size, |s|) == |s|;
        assert s[0..|s|] == s;
      } else {
        assert Chunks(s, size)[0] == s[..size];
        assert Min(size, |s|) == size;
      }
    } else {
      var t := s[size..];
      assert Chunks(s, size)[k] == Chunks(t, size)[k - 1];
      ChunkAt(t, size, k - 1);
      var a := (k - 1) * size;
      var b := Min(a + size, |t|);
      assert k * size == a + size by {
        MulPred(k, size);
      }
      assert Min(k * size + size, |s|) == b + size;
      ShiftSlice(s, size, a, b);
      assert Chunks(s, size)[k] == s[a + size .. b + size];
      assert s[k * size .. Min(k * size + size, |s|)] == s[a + size .. b + size];
    }
  }

  lemma ShiftSlice<T>(s: seq<T>, size: nat, a: nat, b: nat)
    requires size <= |s| && a <= b <= |s| - size
    ensures s[size..][a..b] == s[a + size .. b + size]
  {
  }

  /** Every chunk but the last holds exactly `size` elements; the last holds between 1 and `size`. */
  lemma ChunkLength<T>(s: seq<T>, size: nat, k: nat)
    requires size > 0 && k < |Chunks(s, size)|
    ensures 0 < |Chunks(s, size)[k]| <= size
    ensures k < |Chunks(s, size)| - 1 ==> |Chunks(s, size)[k]| == size
  {
    ChunkAt(s, size, k);
    if k < |Chunks(s, size)| - 1 {
      ChunkAt(s, size, k + 1);
      assert (k + 1) * size == k * size + size;
    }
  }

  /** There are exactly ⌈|s| / size⌉ chunks. */
  lemma {:induction false} ChunkCount<T>(s: seq<T>, size: nat)
    requires size > 0
    ensures |Chunks(s, size)| == (|s| + size - 1) / size
    decreases |s|
  {
    var n := |s|;
    if n == 0 {
      DivUnique(size - 1, size, 0, size - 1);
    } else if n <= size {
      DivUnique(n + size - 1, size, 1, n - 1);
    } else {
      var t := s[size..];
      assert |t| == n - size;
      ChunkCount(t, size);
      assert |Chunks(s, size)| == 1 + |Chunks(t, size)|;
      var a := n - 1;
      assert |Chunks(t, size)| == a / size;
      DivShift(a, size);
    }
  }

  /** The chunks hold at least as many slots as the sequence has elements. */
  lemma {:induction false} ChunksCover<T>(s: seq<T>, size: nat)
    requires size > 0
    ensures |Chunks(s, size)| * size >= |s|
    decreases |s|
  {
    if |s| > size {
      ChunksCover(s[size..], size);
      assert (|Chunks(s[size..], size)| + 1) * size == |Chunks(s[size..], size)| * size + size;
    }
  }

  lemma MulPred(k: nat, size: nat)
    requires k > 0
    ensures (k - 1) * size + size == k * size
    ensures (k - 1) * size >= 0
  {
  }

  lemma MulAtLeast(x: int, d: int)
    requires x >= 1 && d > 0
    ensures x * d >= d
  {
    assert x * d - d == (x - 1) * d;
  }

  lemma MulMonotone(a: nat, b: nat, c: nat)
    requires a <= b
    ensures a * c <= b * c
  {
    assert b * c - a * c == (b - a) * c;
  }

  /** Euclidean division is determined by quotient and remainder. */
  lemma DivUnique(a: int, d: int, q: int, r: int)
    requires d > 0 && 0 <= r < d && a == q * d + r
    ensures a / d == q && a % d == r
  {
    var q', r' := a / d, a % d;
    assert (q - q') * d == r' - r;
    if q > q' {
      MulAtLeast(q - q', d);
    } else if q < q' {
      assert (q' - q) * d == r - r';
      MulAtLeast(q' - q, d);
    }
  }

  lemma DivShift(a: nat, size: nat)
    requires size > 0
    ensures (a + size) / size == a / size + 1
  {
    DivUnique(a + size, size, a / size + 1, a % size);
  }

  /** When m pieces of `size` elements would hold the slice, there are at most m chunks. */
  lemma ChunkCountBound<T>(s: seq<T>, size: nat, m: nat)
    requires size > 0 && |s| <= size * m
    ensures |Chunks(s, size)| <= m
  {
    ChunkCount(s, size);
    DivMonotone(|s| + size - 1, size * m + size - 1, size);
    DivUnique(size * m + size - 1, size, m, size - 1);
  }

  lemma DivMonotone(a: nat, b: nat, d: nat)
    requires d > 0 && a <= b
    ensures a / d <= b / d
  {
    if a / d > b / d {
      assert a / d * d - b / d * d == (a / d - b / d) * d;
      MulAtLeast(a / d - b / d, d);
    }
  }

  /** Element j of the slice sits at position j % size of chunk j / size. */
  lemma ChunkElement<T>(s: seq<T>, size: nat, j: nat)
    requires size > 0 && j < |s|
    ensures j / size < |Chunks(s, size)|
    ensures |Chunks(s, size)[j / size]| > j % size
    ensures Chunks(s, size)[j / size][j % size] == s[j]
  {
    var k, r := j / size, j % size;
    ChunkIndexBound(s, size, j);
    DivMod(j, size);
    ChunkPosition(s, size, k, r);
  }

  /** The chunk that holds element j exists. */
  lemma ChunkIndexBound<T>(s: seq<T>, size: nat, j: nat)
    requires size > 0 && j < |s|
    ensures j / size < |Chunks(s, size)|
  {
    ChunkCount(s, size);
    DivMonotone(j + size, |s| + size - 1, size);
    DivShift(j, size);
  }

  lemma DivMod(a: nat, d: nat)
    requires d > 0
    ensures a == (a / d) * d + a % d && a % d < d
  {
  }

  lemma ChunkPosition<T>(s: seq<T>, size: nat, k: nat, r: nat)
    requires size > 0 && k < |Chunks(s, size)| && r < size && k * size + r < |s|
    ensures |Chunks(s, size)[k]| > r && Chunks(s, size)[k][r] == s[k * size + r]
  {
    ChunkAt(s, size, k);
    var a := k * size;
    var b := Min(a + size, |s|);
    var chunk := Chunks(s, size)[k];
    assert chunk == s[a..b];
    assert a + r < b by {
      assert a + r < a + size && a + r < |s|;
    }
    assert chunk[r] == s[a + r];
  }
}
