/** Screen-space reconstruction of the distinct visible triangles of one frame.
    The renderer writes, at every pixel, the nine corner coordinates X0..Z2 of
    the triangle seen there (NaN where no geometry is hit). Every triangle
    metric collects one 9-tuple per covered pixel, sorts the tuples
    lexicographically and erases adjacent duplicates. */
module VisibleTriangles {
  import opened Floats
  import opened Frame

  /** The nine corner-coordinate buffers of one rendered frame. */
  datatype CornerBuffers = CornerBuffers(
    x0: seq<Float>, y0: seq<Float>, z0: seq<Float>,
    x1: seq<Float>, y1: seq<Float>, z1: seq<Float>,
    x2: seq<Float>, y2: seq<Float>, z2: seq<Float>)

  predicate NoNaN(t: seq<Float>)
  {
    forall k :: 0 <= k < |t| ==> !t[k].NaN?
  }

  /** A visible-triangle tuple <x0,y0,z0,x1,y1,z1,x2,y2,z2>. */
  type Tuple9 = t: seq<Float> | |t| == 9 && NoNaN(t)
    witness [Finite(0.0), Finite(0.0), Finite(0.0), Finite(0.0), Finite(0.0),
             Finite(0.0), Finite(0.0), Finite(0.0), Finite(0.0)]

  /** Every buffer holds at least `size` pixels, and the renderer writes the nine
      corner values together: where X0 is not NaN, none of the nine is. The
      selector tests X0 alone, and sorting tuples holding NaN is undefined. */
  predicate WellFormed(b: CornerBuffers, size: nat)
  {
    && |b.x0| >= size && |b.y0| >= size && |b.z0| >= size
    && |b.x1| >= size && |b.y1| >= size && |b.z1| >= size
    && |b.x2| >= size && |b.y2| >= size && |b.z2| >= size
    && forall i :: 0 <= i < size && !IsNaN(b.x0[i]) ==> NoNaN(RawTupleAt(b, i, size))
  }

  function RawTupleAt(b: CornerBuffers, i: nat, size: nat): seq<Float>
    requires i < size
    requires |b.x0| >= size && |b.y0| >= size && |b.z0| >= size
    requires |b.x1| >= size && |b.y1| >= size && |b.z1| >= size
    requires |b.x2| >= size && |b.y2| >= size && |b.z2| >= size
  {
    [b.x0[i], b.y0[i], b.z0[i], b.x1[i], b.y1[i], b.z1[i], b.x2[i], b.y2[i], b.z2[i]]
  }

  /** The tuple built at a covered pixel. */
  function TupleAt(b: CornerBuffers, i: nat, size: nat): Tuple9
    requires WellFormed(b, size) && i < size && !IsNaN(b.x0[i])
  {
    RawTupleAt(b, i, size)
  }

  /** The set of tuples seen at some covered pixel below `size`. */
  ghost function CoveredSet(b: CornerBuffers, size: nat): set<Tuple9>
    requires WellFormed(b, size)
  {
    set i | 0 <= i < size && !IsNaN(b.x0[i]) :: TupleAt(b, i, size)
  }

  // ---------------------------------------------------------------------------
  // The order and the equality that std::sort and std::unique use on vectors.

  /** `a < b` decided at index `k`: the first `k` entries are pairwise neither
      smaller nor larger, and then either `a` ends while `b` goes on, or `a[k] < b[k]`. */
  ghost predicate LessAt(a: seq<Float>, b: seq<Float>, k: int)
  {
    && 0 <= k <= |a| && k <= |b|
    && (forall m :: 0 <= m < k ==> !Lt(a[m], b[m]) && !Lt(b[m], a[m]))
    && ((k == |a| && k < |b|) || (k < |a| && k < |b| && Lt(a[k], b[k])))
  }

  /** Dropping a common first entry that is neither smaller nor larger shifts the
      deciding index by one. */
  lemma LessAtShift(a: seq<Float>, b: seq<Float>)
    requires |a| > 0 && |b| > 0 && !Lt(a[0], b[0]) && !Lt(b[0], a[0])
    ensures (exists k :: LessAt(a, b, k)) <==> (exists k :: LessAt(a[1..], b[1..], k))
  {
    if k :| LessAt(a, b, k) {
      assert LessAt(a[1..], b[1..], k - 1);
    }
    if k :| LessAt(a[1..], b[1..], k) {
      assert LessAt(a, b, k + 1);
    }
  }

  /** `std::vector<float>::operator<`, i.e. std::lexicographical_compare with `<`:
      `a` is smaller exactly when some index decides it so. */
  function LexLess(a: seq<Float>, b: seq<Float>): (r: bool)
    ensures r <==> exists k :: LessAt(a, b, k)
    decreases |a|
  {
    if |a| == 0 || |b| == 0 then
      assert |a| == 0 && |b| > 0 ==> LessAt(a, b, 0);
      |a| == 0 && |b| > 0
    else if Lt(a[0], b[0]) then
      assert LessAt(a, b, 0);
      true
    else if Lt(b[0], a[0]) then
      false
    else
      LessAtShift(a, b);
      LexLess(a[1..], b[1..])
  }

  /** `std::vector<float>::operator==`: equal sizes and element-wise C `==`. On
      vectors this is equality, except that a NaN entry equals nothing. */
  function TupleEq(a: seq<Float>, b: seq<Float>): (r: bool)
    ensures r <==> a == b && NoNaN(a)
  {
    var r := |a| == |b| && forall k :: 0 <= k < |a| ==> Eq(a[k], b[k]);
    assert r ==> a == b;
    r
  }

  ghost predicate Sorted(s: seq<Tuple9>)
  {
    forall p, q :: 0 <= p < q < |s| ==> !LexLess(s[q], s[p])
  }

  ghost predicate StrictlySorted(s: seq<Tuple9>)
  {
    forall p, q :: 0 <= p < q < |s| ==> LexLess(s[p], s[q])
  }

  lemma {:induction false} LexLessIrreflexive(a: seq<Float>)
    requires NoNaN(a)
    ensures !LexLess(a, a)
    decreases |a|
  {
    if |a| > 0 {
      LexLessIrreflexive(a[1..]);
    }
  }

  lemma {:induction false} LexLessTransitive(a: seq<Float>, b: seq<Float>, c: seq<Float>)
    requires NoNaN(a) && NoNaN(b) && NoNaN(c)
    requires LexLess(a, b) && LexLess(b, c)
    ensures LexLess(a, c)
    decreases |a|
  {
    if |a| > 0 && |b| > 0 && |c| > 0 {
      Trichotomy(a[0], b[0]);
      Trichotomy(b[0], c[0]);
      if !Lt(a[0], b[0]) && !Lt(b[0], c[0]) {
        LexLessTransitive(a[1..], b[1..], c[1..]);
      }
    }
  }

  lemma {:induction false} LexLessTotal(a: seq<Float>, b: seq<Float>)
    requires NoNaN(a) && NoNaN(b) && a != b
    ensures LexLess(a, b) || LexLess(b, a)
    decreases |a|
  {
    if |a| > 0 && |b| > 0 {
      Trichotomy(a[0], b[0]);
      if a[0] == b[0] {
        assert a == [a[0]] + a[1..] && b == [b[0]] + b[1..];
        LexLessTotal(a[1..], b[1..]);
      }
    }
  }

  lemma LexLessAsymmetric(a: seq<Float>, b: seq<Float>)
    requires NoNaN(a) && NoNaN(b) && LexLess(a, b)
    ensures !LexLess(b, a)
  {
    if LexLess(b, a) {
      LexLessTransitive(a, b, a);
      LexLessIrreflexive(a);
    }
  }

  /** "not greater" chains: y <= x and z <= y give z <= x. */
  lemma NotLessTransitive(x: Tuple9, y: Tuple9, z: Tuple9)
    requires !LexLess(y, x) && !LexLess(z, y)
    ensures !LexLess(z, x)
  {
    if LexLess(z, x) {
      if x == y {
      } else {
        LexLessTotal(x, y);
        LexLessTransitive(z, x, y);
      }
    }
  }

  // ---------------------------------------------------------------------------
  // Collecting one tuple per covered pixel (the push_back loop).

  /** The tuples pushed by the first `n` pixels, in pixel order. */
  function Covered(b: CornerBuffers, size: nat, n: nat): seq<Tuple9>
    requires WellFormed(b, size) && n <= size
  {
    if n == 0 then []
    else Covered(b, size, n - 1) + (if IsNaN(b.x0[n - 1]) then [] else [TupleAt(b, n - 1, size)])
  }

  lemma {:induction false} CoveredMembers(b: CornerBuffers, size: nat, n: nat)
    requires WellFormed(b, size) && n <= size
    ensures |Covered(b, size, n)| <= n
    ensures forall t :: t in Covered(b, size, n) <==>
              exists i :: 0 <= i < n && !IsNaN(b.x0[i]) && TupleAt(b, i, size) == t
  {
    if n > 0 {
      CoveredMembers(b, size, n - 1);
    }
  }

  method CollectTuples(b: CornerBuffers, size: nat) returns (tris: seq<Tuple9>)
    requires WellFormed(b, size)
    ensures tris == Covered(b, size, size)
  {
    tris := [];
    for i := 0 to size
      invariant tris == Covered(b, size, i)
    {
      if !IsNaN(b.x0[i]) {
        tris := tris + [TupleAt(b, i, size)];
      }
    }
  }

  // ---------------------------------------------------------------------------
  // std::sort. Only its contract is modelled: an insertion sort stands in.

  method Swap(a: array<Tuple9>, i: nat, j: nat)
    requires i < a.Length && j < a.Length
    modifies a
    ensures a[i] == old(a[j]) && a[j] == old(a[i])
    ensures forall k :: 0 <= k < a.Length && k != i && k != j ==> a[k] == old(a[k])
    ensures multiset(a[..]) == old(multiset(a[..]))
  {
    a[i], a[j] := a[j], a[i];
  }

  method SortTuples(a: array<Tuple9>)
    modifies a
    ensures Sorted(a[..])
    ensures multiset(a[..]) == old(multiset(a[..]))
  {
    for i := 0 to a.Length
      invariant forall p, q :: 0 <= p < q < i ==> !LexLess(a[q], a[p])
      invariant multiset(a[..]) == old(multiset(a[..]))
    {
      var j := i;
      while j > 0 && LexLess(a[j], a[j - 1])
        invariant 0 <= j <= i
        invariant multiset(a[..]) == old(multiset(a[..]))
        invariant forall p, q :: 0 <= p < q < j ==> !LexLess(a[q], a[p])
        invariant forall p, q :: j < p < q <= i ==> !LexLess(a[q], a[p])
        invariant forall p, q :: 0 <= p < j < q <= i ==> !LexLess(a[q], a[p])
        invariant forall q :: j < q <= i ==> LexLess(a[j], a[q])
      {
        Swap(a, j - 1, j);
        j := j - 1;
      }
      forall p, q | 0 <= p < q <= i
        ensures !LexLess(a[q], a[p])
      {
        if q == j && p < j - 1 {
          NotLessTransitive(a[p], a[j - 1], a[j]);
        } else if p == j && j < q {
          LexLessAsymmetric(a[j], a[q]);
        }
      }
    }
    assert a[..] == a[..a.Length];
  }

  // ---------------------------------------------------------------------------
  // std::unique followed by erase.

  /** What std::unique keeps: the first element of every run of equal neighbours. */
  function DedupAdjacent(s: seq<Tuple9>): (r: seq<Tuple9>)
    ensures |r| <= |s|
    ensures |s| > 0 ==> |r| > 0 && r[|r| - 1] == s[|s| - 1]
  {
    if |s| <= 1 then s
    else
      var d := DedupAdjacent(s[..|s| - 1]);
      if TupleEq(d[|d| - 1], s[|s| - 1]) then d else d + [s[|s| - 1]]
  }

  /** std::unique on the whole array; the returned length is where erase cuts. */
  method Unique(a: array<Tuple9>) returns (n: nat)
    modifies a
    ensures n <= a.Length
    ensures a[..n] == DedupAdjacent(old(a[..]))
  {
    if a.Length == 0 {
      return 0;
    }
    ghost var s := a[..];
    var result := 0;
    var first := 1;
    assert s[..1] == a[..1];
    while first < a.Length
      invariant 1 <= first <= a.Length
      invariant result < first
      invariant a[..result + 1] == DedupAdjacent(s[..first])
      invariant forall k :: first <= k < a.Length ==> a[k] == s[k]
    {
      assert s[..first + 1][..first] == s[..first];
      assert a[first] == s[first];
      if !TupleEq(a[result], a[first]) {
        result := result + 1;
        a[result] := a[first];
      }
      first := first + 1;
    }
    assert s[..first] == s;
    n := result + 1;
  }

  lemma {:induction false} DedupAdjacentElements(s: seq<Tuple9>)
    ensures forall t :: t in DedupAdjacent(s) <==> t in s
  {
    if |s| > 1 {
      var init := s[..|s| - 1];
      DedupAdjacentElements(init);
      assert s == init + [s[|s| - 1]];
    }
  }

  /** Erasing adjacent duplicates of a sorted sequence leaves it strictly increasing. */
  lemma {:induction false} DedupSortedIsStrict(s: seq<Tuple9>)
    requires Sorted(s)
    ensures StrictlySorted(DedupAdjacent(s))
  {
    if |s| > 1 {
      var init := s[..|s| - 1];
      var last := s[|s| - 1];
      assert Sorted(init);
      DedupSortedIsStrict(init);
      var d := DedupAdjacent(init);
      if d[|d| - 1] != last {
        // The last kept value is s[|s|-2], which is at most `last` and differs from it.
        assert d[|d| - 1] == s[|s| - 2];
        assert !LexLess(last, s[|s| - 2]);
        LexLessTotal(s[|s| - 2], last);
        var r := d + [last];
        forall p, q | 0 <= p < q < |r|
          ensures LexLess(r[p], r[q])
        {
          if q == |r| - 1 && p < |d| - 1 {
            LexLessTransitive(r[p], d[|d| - 1], last);
          }
        }
      }
    }
  }

  /** The first element of a strictly increasing sequence is its least. */
  lemma MinOfStrictlySorted(s: seq<Tuple9>, x: Tuple9)
    requires StrictlySorted(s) && x in s
    ensures x == s[0] || LexLess(s[0], x)
  {
  }

  lemma {:induction false} StrictlySortedUnique(s: seq<Tuple9>, t: seq<Tuple9>)
    requires StrictlySorted(s) && StrictlySorted(t)
    requires forall x :: x in s <==> x in t
    ensures s == t
    decreases |s|
  {
    if |s| > 0 {
      assert s[0] in s;
    }
    if |t| > 0 {
      assert t[0] in t;
    }
    if |s| > 0 && |t| > 0 {
      MinOfStrictlySorted(s, t[0]);
      MinOfStrictlySorted(t, s[0]);
      if s[0] != t[0] {
        LexLessAsymmetric(s[0], t[0]);
      }
      forall x ensures x in s[1..] <==> x in t[1..] {
        if x in s[1..] {
          var k :| 1 <= k < |s| && s[k] == x;
          LexLessAsymmetric(s[0], s[k]);
          assert x in s;
          var m :| 0 <= m < |t| && t[m] == x;
          assert t[1..][m - 1] == x;
        }
        if x in t[1..] {
          var k :| 1 <= k < |t| && t[k] == x;
          LexLessAsymmetric(t[0], t[k]);
          assert x in t;
          var m :| 0 <= m < |s| && s[m] == x;
          assert s[1..][m - 1] == x;
        }
      }
      StrictlySortedUnique(s[1..], t[1..]);
      assert s == [s[0]] + s[1..] && t == [t[0]] + t[1..];
    }
  }

  /** Sort-and-unique is idempotent: applied again to its own output (put in any
      sorted order that is a permutation of it) it returns that output. */
  lemma DedupAgainIsIdentity(r: seq<Tuple9>, s: seq<Tuple9>)
    requires StrictlySorted(r)
    requires Sorted(s) && multiset(s) == multiset(r)
    ensures DedupAdjacent(s) == r
  {
    DedupSortedIsStrict(s);
    DedupAdjacentElements(s);
    forall x ensures x in DedupAdjacent(s) <==> x in r {
      assert x in s <==> x in multiset(s);
      assert x in r <==> x in multiset(r);
    }
    StrictlySortedUnique(DedupAdjacent(s), r);
  }

  lemma {:induction false} StrictlySortedCardinality(s: seq<Tuple9>)
    requires StrictlySorted(s)
    ensures |set x | x in s| == |s|
  {
    if |s| > 0 {
      var init := s[..|s| - 1];
      StrictlySortedCardinality(init);
      var last := s[|s| - 1];
      assert last !in init;
      assert (set x | x in s) == (set x | x in init) + {last};
    }
  }

  // ---------------------------------------------------------------------------
  // The shared extraction block and calculateVisibleTriangles2.

  /** The distinct visible triangles of a frame, in increasing lexicographic order. */
  method DistinctVisibleTriangles(b: CornerBuffers, height: int, width: int) returns (tris: seq<Tuple9>)
    requires WellFormed(b, PixelCount(height, width))
    ensures StrictlySorted(tris)
    ensures forall t :: t in tris <==>
              exists i :: 0 <= i < PixelCount(height, width) && !IsNaN(b.x0[i]) &&
                          TupleAt(b, i, PixelCount(height, width)) == t
    ensures |tris| <= PixelCount(height, width)
  {
    var size := PixelCount(height, width);
    var collected := CollectTuples(b, size);
    CoveredMembers(b, size, size);
    var a := new Tuple9[|collected|](k requires 0 <= k < |collected| => collected[k]);
    assert a[..] == collected;
    SortTuples(a);
    ghost var sorted := a[..];
    var n := Unique(a);
    tris := a[..n];
    DedupSortedIsStrict(sorted);
    DedupAdjacentElements(sorted);
    forall t ensures t in sorted <==> t in collected {
      assert t in sorted <==> t in multiset(sorted);
      assert t in collected <==> t in multiset(collected);
    }
  }

  /** `calculateVisibleTriangles2`: the number of distinct triangle tuples seen at
      the covered pixels, returned as a float. */
  method CalculateVisibleTriangles(b: CornerBuffers, height: int, width: int) returns (count: Float)
    requires WellFormed(b, PixelCount(height, width))
    ensures count == Finite(|CoveredSet(b, PixelCount(height, width))| as real)
    ensures count.r <= PixelCount(height, width) as real
  {
    var tris := DistinctVisibleTriangles(b, height, width);
    StrictlySortedCardinality(tris);
    var size := PixelCount(height, width);
    assert (set x | x in tris) == CoveredSet(b, size);
    count := Finite(|tris| as real);
  }

  /** A frame where every X0 is NaN shows no triangle. */
  lemma EmptyFrameHasNoTriangles(b: CornerBuffers, size: nat)
    requires WellFormed(b, size)
    requires forall i :: 0 <= i < size ==> IsNaN(b.x0[i])
    ensures |CoveredSet(b, size)| == 0
  {
    assert CoveredSet(b, size) == {};
  }
}
