/** The abstract view of a ChthollyTree: a sequence of closed integer intervals
    that partitions a domain [min, max], each interval tagged with a value.
    Every operation of the tree is specified here as a function on this view,
    and what the operation promises is proved about that function. */
module Intervals {

  datatype Option<T> = None | Some(value: T)

  /** The three errors the tree raises at its public surface. */
  datatype Error =
    | PositionOutOfRange  // "Position is out of range", raised by split
    | RangeInvalid        // "Range is invalid", raised when left > right
    | RangeOutOfRange     // "Range is out of range", raised when the range leaves [min, max]

  datatype Result<R> = Ok(value: R) | Err(error: Error)

  datatype Outcome = Pass | Fail(error: Error)

  /** A node without its link: the closed interval [left, right] and its value. */
  datatype Interval<T> = Interval(left: int, right: int, value: T)

  predicate Contains<T>(n: Interval<T>, p: int)
  {
    n.left <= p <= n.right
  }

  /** The node lies wholly inside [l, r]. */
  predicate Inside<T>(n: Interval<T>, l: int, r: int)
  {
    l <= n.left && n.right <= r
  }

  /** The node shares at least one point with [l, r]. */
  predicate Overlaps<T>(n: Interval<T>, l: int, r: int)
  {
    n.left <= r && l <= n.right
  }

  /** Every interval is non-empty and ends just before the next one starts. */
  predicate Chained<T>(c: seq<Interval<T>>)
  {
    && (forall i :: 0 <= i < |c| ==> c[i].left <= c[i].right)
    && (forall i :: 0 <= i < |c| - 1 ==> Abuts(c, i))
  }

  /** The i-th interval ends just before the next one starts. */
  predicate Abuts<T>(c: seq<Interval<T>>, i: int)
    requires 0 <= i < |c| - 1
  {
    c[i].right + 1 == c[i + 1].left
  }

  /** The representation invariant: c tiles [min, max] without gaps or overlaps. */
  predicate Partitions<T>(c: seq<Interval<T>>, min: int, max: int)
  {
    && |c| > 0
    && c[0].left == min
    && c[|c| - 1].right == max
    && Chained(c)
  }

  lemma {:induction false} ChainedOrdered<T>(c: seq<Interval<T>>, i: int, j: int)
    requires Chained(c) && 0 <= i < j < |c|
    ensures c[i].right < c[j].left
    decreases j - i
  {
    assert Abuts(c, i);
    if i + 1 < j {
      ChainedOrdered(c, i + 1, j);
    }
  }

  /** A slice of a chained sequence is chained. */
  lemma ChainedSlice<T>(c: seq<Interval<T>>, lo: int, hi: int)
    requires Chained(c) && 0 <= lo <= hi <= |c|
    ensures Chained(c[lo..hi])
  {
    var d := c[lo..hi];
    forall i | 0 <= i < |d| - 1
      ensures Abuts(d, i)
    {
      assert Abuts(c, lo + i);
    }
  }

  /** A chained sequence is strictly ordered: each interval ends before any later one starts. */
  lemma ChainedSorted<T>(c: seq<Interval<T>>)
    requires Chained(c)
    ensures forall i, j :: 0 <= i < j < |c| ==> c[i].right < c[j].left
  {
    forall i, j | 0 <= i < j < |c|
      ensures c[i].right < c[j].left
    {
      ChainedOrdered(c, i, j);
    }
  }

  /** Every interval of a partition of [min, max] lies inside [min, max]. */
  lemma PartitionBounds<T>(c: seq<Interval<T>>, min: int, max: int)
    requires Partitions(c, min, max)
    ensures forall i :: 0 <= i < |c| ==> min <= c[i].left && c[i].right <= max
  {
    forall i | 0 < i < |c|
      ensures min <= c[i].left
    {
      ChainedOrdered(c, 0, i);
    }
    forall i | 0 <= i < |c| - 1
      ensures c[i].right <= max
    {
      ChainedOrdered(c, i, |c| - 1);
    }
  }

  /** The index of the first interval that contains p, or |c| if none does. */
  function Locate<T>(c: seq<Interval<T>>, p: int): (k: nat)
    ensures k <= |c|
    ensures k < |c| ==> Contains(c[k], p)
  {
    if c == [] then 0
    else if Contains(c[0], p) then 0
    else 1 + Locate(c[1..], p)
  }

  /** No interval before the located one contains p. */
  lemma {:induction false} LocateFirst<T>(c: seq<Interval<T>>, p: int, j: int)
    requires 0 <= j < Locate(c, p)
    ensures !Contains(c[j], p)
  {
    if 0 < j {
      LocateFirst(c[1..], p, j - 1);
    }
  }

  /** In a partition of [min, max], every point of the domain lies in some interval. */
  lemma {:induction false} LocateInDomain<T>(c: seq<Interval<T>>, min: int, max: int, p: int)
    requires Partitions(c, min, max) && min <= p <= max
    ensures Locate(c, p) < |c|
  {
    if !Contains(c[0], p) {
      assert |c| > 1 && Abuts(c, 0);
      ChainedSlice(c, 1, |c|);
      assert c[1..] == c[1..|c|];
      assert Partitions(c[1..], c[1].left, max);
      LocateInDomain(c[1..], c[1].left, max, p);
    }
  }

  /** In a chained sequence the interval containing p is unique. */
  lemma LocateUnique<T>(c: seq<Interval<T>>, i: int, p: int)
    requires Chained(c) && 0 <= i < |c| && Contains(c[i], p)
    ensures Locate(c, p) == i
  {
    var k := Locate(c, p);
    if k < i {
      ChainedOrdered(c, k, i);
    } else if i < k {
      LocateFirst(c, p, i);
    }
  }

  /** The value the tree holds at point p, if p is in the domain. */
  function ValueAt<T>(c: seq<Interval<T>>, p: int): Option<T>
  {
    var k := Locate(c, p);
    if k < |c| then Some(c[k].value) else None
  }

  lemma ValueAtIndex<T>(c: seq<Interval<T>>, i: int, p: int)
    requires Chained(c) && 0 <= i < |c| && Contains(c[i], p)
    ensures ValueAt(c, p) == Some(c[i].value)
  {
    LocateUnique(c, i, p);
  }

  /** A partition of [min, max] gives a value to exactly the points of [min, max]. */
  lemma ValueAtDomain<T>(c: seq<Interval<T>>, min: int, max: int, p: int)
    requires Partitions(c, min, max)
    ensures ValueAt(c, p).Some? <==> min <= p <= max
  {
    if min <= p <= max {
      LocateInDomain(c, min, max, p);
    } else {
      PartitionBounds(c, min, max);
    }
  }

  /** Some interval of c starts exactly at q. */
  predicate StartsAt<T>(c: seq<Interval<T>>, q: int)
  {
    var k := Locate(c, q);
    k < |c| && c[k].left == q
  }

  lemma StartsAtIff<T>(c: seq<Interval<T>>, q: int)
    requires Chained(c)
    ensures StartsAt(c, q) <==> exists i :: 0 <= i < |c| && c[i].left == q
  {
    if i :| 0 <= i < |c| && c[i].left == q {
      LocateUnique(c, i, q);
    }
  }

  // ---------------------------------------------------------------- split

  /** split(pos): cut the interval [l, r] that contains pos into [l, pos - 1] and
      [pos, r], both keeping its value; no change if an interval starts at pos. */
  function SplitAt<T>(c: seq<Interval<T>>, pos: int): seq<Interval<T>>
  {
    var k := Locate(c, pos);
    if k == |c| || c[k].left == pos then c
    else SplitHere(c, k, pos)
  }

  /** The sequence split(pos) produces from the interval c[k] that holds pos. */
  function SplitHere<T>(c: seq<Interval<T>>, k: int, pos: int): (s: seq<Interval<T>>)
    requires 0 <= k < |c|
    ensures |s| == |c| + 1
    ensures forall j :: 0 <= j < k ==> s[j] == c[j]
    ensures s[k] == Interval(c[k].left, pos - 1, c[k].value)
    ensures s[k + 1] == Interval(pos, c[k].right, c[k].value)
    ensures forall j :: k + 1 < j < |s| ==> s[j] == c[j - 1]
  {
    var s := c[..k] + [Interval(c[k].left, pos - 1, c[k].value), Interval(pos, c[k].right, c[k].value)] + c[k + 1..];
    assert forall j :: 0 <= j < k ==> s[j] == c[..k][j];
    assert forall j :: k + 1 < j < |s| ==> s[j] == c[k + 1..][j - k - 2];
    s
  }

  lemma SplitAtShape<T>(c: seq<Interval<T>>, min: int, max: int, pos: int)
    requires Partitions(c, min, max) && min <= pos <= max
    ensures Locate(c, pos) < |c|
    ensures StartsAt(c, pos) ==> SplitAt(c, pos) == c
    ensures !StartsAt(c, pos) ==>
      c[Locate(c, pos)].left < pos && SplitAt(c, pos) == SplitHere(c, Locate(c, pos), pos)
  {
    LocateInDomain(c, min, max, pos);
  }

  /** Splitting keeps the partition of the same domain. */
  lemma SplitAtPartitions<T>(c: seq<Interval<T>>, min: int, max: int, pos: int)
    requires Partitions(c, min, max) && min <= pos <= max
    ensures Partitions(SplitAt(c, pos), min, max)
  {
    SplitAtShape(c, min, max, pos);
    var s := SplitAt(c, pos);
    if !StartsAt(c, pos) {
      var k := Locate(c, pos);
      forall j | 0 <= j < |s| - 1
        ensures Abuts(s, j)
      {
        if j + 1 < k {
          assert Abuts(c, j);
        } else if j > k + 1 {
          assert Abuts(c, j - 1);
        } else if j + 1 == k {
          assert Abuts(c, j);
        } else if j == k + 1 {
          assert s[j + 1] == c[k + 1] && Abuts(c, k);
        }
      }
    }
  }

  /** After splitting, an interval starts exactly at pos. */
  lemma SplitAtStartsAt<T>(c: seq<Interval<T>>, min: int, max: int, pos: int)
    requires Partitions(c, min, max) && min <= pos <= max
    ensures StartsAt(SplitAt(c, pos), pos)
  {
    SplitAtShape(c, min, max, pos);
    SplitAtPartitions(c, min, max, pos);
    if !StartsAt(c, pos) {
      LocateUnique(SplitAt(c, pos), Locate(c, pos) + 1, pos);
    }
  }

  /** split(pos) twice in a row is split(pos) once. */
  lemma SplitAtIdempotent<T>(c: seq<Interval<T>>, min: int, max: int, pos: int)
    requires Partitions(c, min, max) && min <= pos <= max
    ensures SplitAt(SplitAt(c, pos), pos) == SplitAt(c, pos)
  {
    SplitAtStartsAt(c, min, max, pos);
  }

  /** Splitting changes no value at any point. */
  lemma SplitAtValues<T>(c: seq<Interval<T>>, min: int, max: int, pos: int)
    requires Partitions(c, min, max) && min <= pos <= max
    ensures forall p :: ValueAt(SplitAt(c, pos), p) == ValueAt(c, p)
  {
    var s := SplitAt(c, pos);
    SplitAtShape(c, min, max, pos);
    SplitAtPartitions(c, min, max, pos);
    if !StartsAt(c, pos) {
      var k := Locate(c, pos);
      forall p
        ensures ValueAt(s, p) == ValueAt(c, p)
      {
        ValueAtDomain(c, min, max, p);
        ValueAtDomain(s, min, max, p);
        if min <= p <= max {
          var j := Locate(c, p);
          ValueAtIndex(c, j, p);
          if j < k {
            ValueAtIndex(s, j, p);
          } else if j > k {
            ValueAtIndex(s, j + 1, p);
          } else if p < pos {
            ValueAtIndex(s, k, p);
          } else {
            ValueAtIndex(s, k + 1, p);
          }
        }
      }
    }
  }

  /** Splitting adds exactly one boundary, at pos, and removes none. */
  lemma SplitAtBoundaries<T>(c: seq<Interval<T>>, min: int, max: int, pos: int)
    requires Partitions(c, min, max) && min <= pos <= max
    ensures forall q :: StartsAt(SplitAt(c, pos), q) <==> StartsAt(c, q) || q == pos
  {
    var s := SplitAt(c, pos);
    SplitAtShape(c, min, max, pos);
    SplitAtPartitions(c, min, max, pos);
    SplitAtStartsAt(c, min, max, pos);
    forall q
      ensures StartsAt(s, q) <==> StartsAt(c, q) || q == pos
    {
      StartsAtIff(c, q);
      StartsAtIff(s, q);
      if !StartsAt(c, pos) {
        var k := Locate(c, pos);
        if i :| 0 <= i < |s| && s[i].left == q {
          if i < k {
            assert c[i].left == q;
          } else if i == k {
            assert c[k].left == q;
          } else if i > k + 1 {
            assert c[i - 1].left == q;
          }
        }
        if i :| 0 <= i < |c| && c[i].left == q {
          if i < k {
            assert s[i].left == q;
          } else if i == k {
            assert s[k].left == q;
          } else {
            assert s[i + 1].left == q;
          }
        }
      }
    }
  }

  /** Splitting leaves every interval before the one containing pos in place,
      and that interval keeps its start. */
  lemma SplitAtPrefix<T>(c: seq<Interval<T>>, min: int, max: int, pos: int)
    requires Partitions(c, min, max) && min <= pos <= max
    ensures Locate(c, pos) < |c| <= |SplitAt(c, pos)|
    ensures SplitAt(c, pos)[..Locate(c, pos)] == c[..Locate(c, pos)]
    ensures SplitAt(c, pos)[Locate(c, pos)].left == c[Locate(c, pos)].left
  {
    SplitAtShape(c, min, max, pos);
  }

  // ---------------------------------------------------------------- the run [left, right]

  /** The splits at left and right + 1 that assign and perform start with;
      the second one is skipped when right + 1 falls past max. */
  function Isolate<T>(c: seq<Interval<T>>, left: int, right: int, max: int): seq<Interval<T>>
  {
    var c1 := SplitAt(c, left);
    if right + 1 > max then c1 else SplitAt(c1, right + 1)
  }

  /** The index of the node split off at right + 1, or |c| when there is none. */
  function EndIndex<T>(c: seq<Interval<T>>, right: int, max: int): (b: nat)
    ensures b <= |c|
  {
    if right + 1 > max then |c| else Locate(c, right + 1)
  }

  /** The second split, at right + 1, keeps the node that starts at left where it is. */
  lemma SplitAfterRun<T>(c1: seq<Interval<T>>, min: int, max: int, a1: int, left: int, right: int)
    requires Partitions(c1, min, max) && min <= left <= right && right + 1 <= max
    requires 0 <= a1 < |c1| && c1[a1].left == left
    ensures
      var c2 := SplitAt(c1, right + 1);
      var b := Locate(c2, right + 1);
      && Partitions(c2, min, max)
      && a1 < b < |c2|
      && Locate(c2, left) == a1
      && c2[a1].left == left
      && c2[b].left == right + 1
      && c2[b - 1].right == right
  {
    var c2 := SplitAt(c1, right + 1);
    SplitAtPartitions(c1, min, max, right + 1);
    SplitAtStartsAt(c1, min, max, right + 1);
    SplitAtPrefix(c1, min, max, right + 1);
    var k2 := Locate(c1, right + 1);
    if k2 < a1 {
      ChainedOrdered(c1, k2, a1);
    }
    if a1 < k2 {
      assert c2[a1] == c2[..k2][a1] == c1[..k2][a1] == c1[a1];
    }
    LocateUnique(c2, a1, left);
    var b := Locate(c2, right + 1);
    if b <= a1 {
      ChainedOrdered(c2, b, a1);
    }
    assert Abuts(c2, b - 1);
  }

  /** c[a..b] is a run of nodes that spans exactly [left, right]: it starts at
      left, ends at right, and the node after it (if any) starts at right + 1. */
  predicate IsRun<T>(c: seq<Interval<T>>, left: int, right: int, a: int, b: int)
  {
    && 0 <= a < b <= |c|
    && c[a].left == left
    && c[b - 1].right == right
    && (b < |c| ==> c[b].left == right + 1)
  }

  /** After both splits the node starting at left is still the one split(left)
      returned, and the nodes from it up to the one split off at right + 1 form
      a run spanning exactly [left, right]. */
  lemma IsolateSpan<T>(c: seq<Interval<T>>, min: int, max: int, left: int, right: int)
    requires Partitions(c, min, max) && min <= left <= right <= max
    ensures
      var c2 := Isolate(c, left, right, max);
      && Partitions(c2, min, max)
      && Locate(c2, left) == Locate(SplitAt(c, left), left)
      && IsRun(c2, left, right, Locate(c2, left), EndIndex(c2, right, max))
  {
    var c1 := SplitAt(c, left);
    SplitAtPartitions(c, min, max, left);
    SplitAtStartsAt(c, min, max, left);
    if right + 1 <= max {
      SplitAfterRun(c1, min, max, Locate(c1, left), left, right);
    }
  }

  /** The two splits change no value at any point. */
  lemma IsolateValues<T>(c: seq<Interval<T>>, min: int, max: int, left: int, right: int)
    requires Partitions(c, min, max) && min <= left <= right <= max
    ensures forall p :: ValueAt(Isolate(c, left, right, max), p) == ValueAt(c, p)
  {
    var c1 := SplitAt(c, left);
    var c2 := Isolate(c, left, right, max);
    SplitAtPartitions(c, min, max, left);
    SplitAtValues(c, min, max, left);
    if right + 1 <= max {
      SplitAtValues(c1, min, max, right + 1);
      assert c2 == SplitAt(c1, right + 1);
    } else {
      assert c2 == c1;
    }
  }

  /** Around a run spanning [left, right], every node lies wholly inside
      [left, right] or wholly outside it, and the inside ones are the run. */
  lemma RunSeparates<T>(c: seq<Interval<T>>, min: int, max: int, left: int, right: int, a: int, b: int)
    requires Partitions(c, min, max) && IsRun(c, left, right, a, b)
    ensures forall j :: 0 <= j < |c| ==>
      && (Inside(c[j], left, right) <==> a <= j < b)
      && (Inside(c[j], left, right) || !Overlaps(c[j], left, right))
  {
    forall j | 0 <= j < |c|
      ensures Inside(c[j], left, right) <==> a <= j < b
      ensures Inside(c[j], left, right) || !Overlaps(c[j], left, right)
    {
      if j < a {
        ChainedOrdered(c, j, a);
      }
      if a < j {
        ChainedOrdered(c, a, j);
      }
      if j < b - 1 {
        ChainedOrdered(c, j, b - 1);
      }
      if b < j {
        ChainedOrdered(c, b, j);
      }
    }
  }

  /** A run spanning [left, right] tiles [left, right]. */
  lemma RunPartitions<T>(c: seq<Interval<T>>, min: int, max: int, left: int, right: int, a: int, b: int)
    requires Partitions(c, min, max) && IsRun(c, left, right, a, b)
    ensures Partitions(c[a..b], left, right)
  {
    ChainedSlice(c, a, b);
  }

  // ---------------------------------------------------------------- assign

  /** c with the elements c[a..b] replaced by the single element n. */
  function Splice<X>(c: seq<X>, a: int, b: int, n: X): (s: seq<X>)
    requires 0 <= a <= |c| && 0 <= b <= |c|
    ensures |s| == a + 1 + |c| - b
    ensures forall j :: 0 <= j < a ==> s[j] == c[j]
    ensures s[a] == n
    ensures forall j :: a < j < |s| ==> s[j] == c[j - a - 1 + b]
  {
    var s := c[..a] + [n] + c[b..];
    assert forall j :: 0 <= j < a ==> s[j] == c[..a][j];
    assert forall j :: a < j < |s| ==> s[j] == c[b..][j - a - 1];
    s
  }

  /** assign(left, right, value): split at both ends, then replace the run
      between the two split points by one node [left, right] = value. */
  function Assigned<T>(c: seq<Interval<T>>, left: int, right: int, value: T, max: int): seq<Interval<T>>
  {
    var c2 := Isolate(c, left, right, max);
    Splice(c2, Locate(c2, left), EndIndex(c2, right, max), Interval(left, right, value))
  }

  lemma SplicePartitions<T>(c: seq<Interval<T>>, min: int, max: int, left: int, right: int, a: int, b: int, value: T)
    requires Partitions(c, min, max) && IsRun(c, left, right, a, b)
    ensures Partitions(Splice(c, a, b, Interval(left, right, value)), min, max)
  {
    var s := Splice(c, a, b, Interval(left, right, value));
    if a < b - 1 {
      ChainedOrdered(c, a, b - 1);
    }
    forall j | 0 <= j < |s| - 1
      ensures Abuts(s, j)
    {
      if j + 1 < a {
        assert Abuts(c, j);
      } else if j + 1 == a {
        assert Abuts(c, j);
      } else if j == a {
        assert s[j + 1] == c[b];
      } else {
        assert s[j] == c[j - a - 1 + b] && s[j + 1] == c[j - a + b];
        assert Abuts(c, j - a - 1 + b);
      }
    }
  }

  lemma SpliceValues<T>(c: seq<Interval<T>>, min: int, max: int, left: int, right: int, a: int, b: int, value: T)
    requires Partitions(c, min, max) && IsRun(c, left, right, a, b)
    ensures forall p :: ValueAt(Splice(c, a, b, Interval(left, right, value)), p)
                     == if left <= p <= right then Some(value) else ValueAt(c, p)
  {
    var s := Splice(c, a, b, Interval(left, right, value));
    SplicePartitions(c, min, max, left, right, a, b, value);
    RunSeparates(c, min, max, left, right, a, b);
    forall p
      ensures ValueAt(s, p) == if left <= p <= right then Some(value) else ValueAt(c, p)
    {
      ValueAtDomain(c, min, max, p);
      ValueAtDomain(s, min, max, p);
      if left <= p <= right {
        ValueAtIndex(s, a, p);
      } else if min <= p <= max {
        var j := Locate(c, p);
        ValueAtIndex(c, j, p);
        if j < a {
          ValueAtIndex(s, j, p);
        } else {
          ValueAtIndex(s, j - b + a + 1, p);
        }
      }
    }
  }

  lemma SpliceNode<T>(c: seq<Interval<T>>, min: int, max: int, left: int, right: int, a: int, b: int, value: T)
    requires Partitions(c, min, max) && IsRun(c, left, right, a, b)
    ensures
      var s := Splice(c, a, b, Interval(left, right, value));
      && Locate(s, left) == a
      && (forall p :: left <= p <= right ==> Locate(s, p) == a)
      && (right == max <==> a == |s| - 1)
  {
    var s := Splice(c, a, b, Interval(left, right, value));
    SplicePartitions(c, min, max, left, right, a, b, value);
    forall p | left <= p <= right
      ensures Locate(s, p) == a
    {
      LocateUnique(s, a, p);
    }
    if right == max && b < |c| {
      PartitionBounds(c, min, max);
    }
  }

  /** assign keeps the partition of the same domain. */
  lemma AssignedPartitions<T>(c: seq<Interval<T>>, min: int, max: int, left: int, right: int, value: T)
    requires Partitions(c, min, max) && min <= left <= right <= max
    ensures Partitions(Assigned(c, left, right, value, max), min, max)
  {
    IsolateSpan(c, min, max, left, right);
    var c2 := Isolate(c, left, right, max);
    SplicePartitions(c2, min, max, left, right, Locate(c2, left), EndIndex(c2, right, max), value);
  }

  /** After assign the value is `value` on [left, right] and unchanged elsewhere. */
  lemma AssignedValues<T>(c: seq<Interval<T>>, min: int, max: int, left: int, right: int, value: T)
    requires Partitions(c, min, max) && min <= left <= right <= max
    ensures forall p :: ValueAt(Assigned(c, left, right, value, max), p)
                     == if left <= p <= right then Some(value) else ValueAt(c, p)
  {
    IsolateSpan(c, min, max, left, right);
    IsolateValues(c, min, max, left, right);
    var c2 := Isolate(c, left, right, max);
    SpliceValues(c2, min, max, left, right, Locate(c2, left), EndIndex(c2, right, max), value);
  }

  /** After assign one node covers all of [left, right]: it is (left, right, value),
      and it is the last node exactly when right == max. */
  lemma AssignedNode<T>(c: seq<Interval<T>>, min: int, max: int, left: int, right: int, value: T)
    requires Partitions(c, min, max) && min <= left <= right <= max
    ensures
      var s := Assigned(c, left, right, value, max);
      var k := Locate(s, left);
      && k < |s|
      && s[k] == Interval(left, right, value)
      && (forall p :: left <= p <= right ==> Locate(s, p) == k)
      && (right == max <==> k == |s| - 1)
  {
    IsolateSpan(c, min, max, left, right);
    var c2 := Isolate(c, left, right, max);
    SpliceNode(c2, min, max, left, right, Locate(c2, left), EndIndex(c2, right, max), value);
  }

  // ---------------------------------------------------------------- perform

  /** c with every node inside [l, r] given the value action computes from it. */
  function Transform<T>(c: seq<Interval<T>>, l: int, r: int, action: Interval<T> -> T): (s: seq<Interval<T>>)
    ensures |s| == |c|
  {
    seq(|c|, i requires 0 <= i < |c| =>
      if Inside(c[i], l, r) then Interval(c[i].left, c[i].right, action(c[i])) else c[i])
  }

  /** c with the value of every node at a position in [a, b) replaced by what
      action computes from that node. */
  function Retag<T>(c: seq<Interval<T>>, a: int, b: int, action: Interval<T> -> T): (s: seq<Interval<T>>)
    ensures |s| == |c|
  {
    seq(|c|, i requires 0 <= i < |c| =>
      if a <= i < b then Interval(c[i].left, c[i].right, action(c[i])) else c[i])
  }

  /** When the nodes inside [l, r] are exactly those at positions [a, b),
      retagging by position and transforming by range agree. */
  lemma TransformRetag<T>(c: seq<Interval<T>>, l: int, r: int, a: int, b: int, action: Interval<T> -> T)
    requires forall j :: 0 <= j < |c| ==> (Inside(c[j], l, r) <==> a <= j < b)
    ensures Transform(c, l, r, action) == Retag(c, a, b, action)
  {
  }

  /** perform(left, right, action): split at both ends, then give every node
      inside [left, right] the value action computes from that node. */
  function Performed<T>(c: seq<Interval<T>>, left: int, right: int, action: Interval<T> -> T, max: int): seq<Interval<T>>
  {
    Transform(Isolate(c, left, right, max), left, right, action)
  }

  lemma TransformValues<T>(c: seq<Interval<T>>, min: int, max: int, left: int, right: int, a: int, b: int, action: Interval<T> -> T)
    requires Partitions(c, min, max) && IsRun(c, left, right, a, b)
    ensures
      var s := Transform(c, left, right, action);
      && (forall p :: left <= p <= right ==>
            Locate(c, p) < |c| && ValueAt(s, p) == Some(action(c[Locate(c, p)])))
      && (forall p :: !(left <= p <= right) ==> ValueAt(s, p) == ValueAt(c, p))
  {
    var s := Transform(c, left, right, action);
    RunSeparates(c, min, max, left, right, a, b);
    PartitionBounds(c, min, max);
    TransformBounds(c, min, max, left, right, action);
    forall p | min <= p <= max
      ensures Locate(c, p) < |c|
      ensures ValueAt(s, p) == if left <= p <= right then Some(action(c[Locate(c, p)])) else ValueAt(c, p)
    {
      LocateInDomain(c, min, max, p);
      var j := Locate(c, p);
      ValueAtIndex(c, j, p);
      ValueAtIndex(s, j, p);
    }
    forall p | !(min <= p <= max)
      ensures ValueAt(s, p) == ValueAt(c, p)
    {
      ValueAtDomain(c, min, max, p);
      ValueAtDomain(s, min, max, p);
    }
  }

  /** Changing only the values keeps a partition. */
  lemma RetaggedPartitions<T>(c: seq<Interval<T>>, s: seq<Interval<T>>, min: int, max: int)
    requires Partitions(c, min, max) && |s| == |c|
    requires forall i :: 0 <= i < |s| ==> s[i].left == c[i].left && s[i].right == c[i].right
    ensures Partitions(s, min, max)
  {
    forall i | 0 <= i < |s| - 1
      ensures Abuts(s, i)
    {
      assert Abuts(c, i);
    }
  }

  lemma TransformBounds<T>(c: seq<Interval<T>>, min: int, max: int, left: int, right: int, action: Interval<T> -> T)
    requires Partitions(c, min, max)
    ensures
      var s := Transform(c, left, right, action);
      && (forall i :: 0 <= i < |s| ==> s[i].left == c[i].left && s[i].right == c[i].right)
      && Partitions(s, min, max)
  {
    RetaggedPartitions(c, Transform(c, left, right, action), min, max);
  }

  /** perform does not coalesce: the bounds are exactly those the two splits
      made, and the partition is kept. */
  lemma PerformedBounds<T>(c: seq<Interval<T>>, min: int, max: int, left: int, right: int, action: Interval<T> -> T)
    requires Partitions(c, min, max) && min <= left <= right <= max
    ensures
      var c2 := Isolate(c, left, right, max);
      var s := Performed(c, left, right, action, max);
      && |s| == |c2|
      && (forall i :: 0 <= i < |s| ==> s[i].left == c2[i].left && s[i].right == c2[i].right)
      && Partitions(s, min, max)
  {
    IsolateSpan(c, min, max, left, right);
    TransformBounds(Isolate(c, left, right, max), min, max, left, right, action);
  }

  /** After perform, a point of [left, right] holds action applied to the node
      (after the splits) that contains it; every other point keeps its value. */
  lemma PerformedValues<T>(c: seq<Interval<T>>, min: int, max: int, left: int, right: int, action: Interval<T> -> T)
    requires Partitions(c, min, max) && min <= left <= right <= max
    ensures
      var c2 := Isolate(c, left, right, max);
      var s := Performed(c, left, right, action, max);
      && (forall p :: left <= p <= right ==>
            Locate(c2, p) < |c2| && ValueAt(s, p) == Some(action(c2[Locate(c2, p)])))
      && (forall p :: !(left <= p <= right) ==> ValueAt(s, p) == ValueAt(c, p))
  {
    IsolateSpan(c, min, max, left, right);
    IsolateValues(c, min, max, left, right);
    var c2 := Isolate(c, left, right, max);
    TransformValues(c2, min, max, left, right, Locate(c2, left), EndIndex(c2, right, max), action);
  }

  /** The nodes of c that lie wholly inside [l, r], in order. */
  function Within<T>(c: seq<Interval<T>>, l: int, r: int): seq<Interval<T>>
  {
    if c == [] then []
    else Within(c[..|c| - 1], l, r) + (if Inside(c[|c| - 1], l, r) then [c[|c| - 1]] else [])
  }

  lemma {:induction false} WithinRun<T>(c: seq<Interval<T>>, l: int, r: int, a: int, b: int)
    requires 0 <= a <= b <= |c|
    requires forall j :: 0 <= j < |c| ==> (Inside(c[j], l, r) <==> a <= j < b)
    ensures Within(c, l, r) == c[a..b]
  {
    if c != [] {
      var c0 := c[..|c| - 1];
      if b < |c| {
        WithinRun(c0, l, r, a, b);
        assert c0[a..b] == c[a..b];
      } else if a == b {
        WithinRun(c0, l, r, |c0|, |c0|);
      } else {
        WithinRun(c0, l, r, a, b - 1);
        assert c0[a..b - 1] + [c[b - 1]] == c[a..b];
      }
    }
  }

  /** The nodes perform hands to action are the run between the two split
      points, in chain order; they are exactly the nodes inside [left, right],
      and they tile [left, right], so each point of the range is seen once. */
  lemma PerformedCalls<T>(c: seq<Interval<T>>, min: int, max: int, left: int, right: int)
    requires Partitions(c, min, max) && min <= left <= right <= max
    ensures
      var c2 := Isolate(c, left, right, max);
      var a := Locate(c2, left);
      var b := EndIndex(c2, right, max);
      && a <= b
      && Within(c2, left, right) == c2[a..b]
      && Partitions(Within(c2, left, right), left, right)
  {
    IsolateSpan(c, min, max, left, right);
    var c2 := Isolate(c, left, right, max);
    var a := Locate(c2, left);
    var b := EndIndex(c2, right, max);
    RunSeparates(c2, min, max, left, right, a, b);
    RunPartitions(c2, min, max, left, right, a, b);
    WithinRun(c2, left, right, a, b);
  }

  // ---------------------------------------------------------------- query

  /** A node's view clamped to [l, r]. */
  function Clamp<T>(n: Interval<T>, l: int, r: int): Interval<T>
  {
    Interval(if n.left < l then l else n.left, if n.right > r then r else n.right, n.value)
  }

  /** query(l, r): the clamped view of every node that overlaps [l, r], in chain order. */
  function Clip<T>(c: seq<Interval<T>>, l: int, r: int): seq<Interval<T>>
  {
    if c == [] then []
    else Clip(c[..|c| - 1], l, r) + (if Overlaps(c[|c| - 1], l, r) then [Clamp(c[|c| - 1], l, r)] else [])
  }

  /** Nodes that do not overlap the range contribute nothing. */
  lemma {:induction false} ClipPrefix<T>(c: seq<Interval<T>>, l: int, r: int, i: int)
    requires 0 <= i <= |c|
    requires forall j :: i <= j < |c| ==> !Overlaps(c[j], l, r)
    ensures Clip(c, l, r) == Clip(c[..i], l, r)
    decreases |c| - i
  {
    if i < |c| {
      var c0 := c[..|c| - 1];
      ClipPrefix(c0, l, r, i);
      assert c0[..i] == c[..i];
    } else {
      assert c[..i] == c;
    }
  }

  lemma {:induction false} ClipUpTo<T>(c: seq<Interval<T>>, l: int, r: int, n: int)
    requires Chained(c) && l <= r && 1 <= n <= |c| && c[0].left <= l <= c[n - 1].right
    ensures
      var e := Clip(c[..n], l, r);
      && |e| > 0
      && e[0].left == l
      && e[|e| - 1].right == (if r < c[n - 1].right then r else c[n - 1].right)
      && Chained(e)
  {
    var x := c[n - 1];
    assert c[..n][..n - 1] == c[..n - 1];
    if 1 < n {
      assert Abuts(c, n - 2);
    }
    if n == 1 {
      assert Clip(c[..n - 1], l, r) == [];
    } else if l <= c[n - 2].right {
      ClipUpTo(c, l, r, n - 1);
      if r <= c[n - 2].right {
        assert !Overlaps(x, l, r);
        assert Clip(c[..n], l, r) == Clip(c[..n - 1], l, r);
      } else {
        assert Overlaps(x, l, r) && Clamp(x, l, r).left == x.left;
        var e0 := Clip(c[..n - 1], l, r);
        var e := e0 + [Clamp(x, l, r)];
        assert forall i :: 0 <= i < |e0| ==> e[i] == e0[i];
        forall i | 0 <= i < |e| - 1
          ensures Abuts(e, i)
        {
          if i < |e0| - 1 {
            assert Abuts(e0, i);
          }
        }
      }
    } else {
      ChainedSorted(c);
      ClipPrefix(c[..n - 1], l, r, 0);
      assert c[..n - 1][..0] == [];
    }
  }

  /** What query emits tiles [l, r]: the pieces are non-empty, ordered, adjacent,
      start at l and end at r, so their union is exactly [l, r] and they are disjoint. */
  lemma ClipPartitions<T>(c: seq<Interval<T>>, min: int, max: int, l: int, r: int)
    requires Partitions(c, min, max) && min <= l <= r <= max
    ensures Partitions(Clip(c, l, r), l, r)
  {
    LocateInDomain(c, min, max, l);
    PartitionBounds(c, min, max);
    ClipUpTo(c, l, r, |c|);
    assert c[..|c|] == c;
  }

  lemma {:induction false} ClipFrom<T>(c: seq<Interval<T>>, l: int, r: int)
    ensures forall x :: x in Clip(c, l, r) ==>
      exists j :: 0 <= j < |c| && Overlaps(c[j], l, r) && x == Clamp(c[j], l, r)
  {
    if c != [] {
      var c0 := c[..|c| - 1];
      ClipFrom(c0, l, r);
      forall x | x in Clip(c, l, r)
        ensures exists j :: 0 <= j < |c| && Overlaps(c[j], l, r) && x == Clamp(c[j], l, r)
      {
        if x in Clip(c0, l, r) {
          var j :| 0 <= j < |c0| && Overlaps(c0[j], l, r) && x == Clamp(c0[j], l, r);
          assert c[j] == c0[j];
        } else {
          assert x == Clamp(c[|c| - 1], l, r);
        }
      }
    }
  }

  /** Each piece query emits carries the value the tree holds at every one of its points. */
  lemma ClipValues<T>(c: seq<Interval<T>>, l: int, r: int)
    requires Chained(c)
    ensures forall i, p :: 0 <= i < |Clip(c, l, r)| && Contains(Clip(c, l, r)[i], p) ==>
      ValueAt(c, p) == Some(Clip(c, l, r)[i].value)
  {
    var e := Clip(c, l, r);
    ClipFrom(c, l, r);
    forall i, p | 0 <= i < |e| && Contains(e[i], p)
      ensures ValueAt(c, p) == Some(e[i].value)
    {
      assert e[i] in e;
      var j :| 0 <= j < |c| && Overlaps(c[j], l, r) && e[i] == Clamp(c[j], l, r);
      ValueAtIndex(c, j, p);
    }
  }

  /** Query reports the tree's own values: on [l, r] the emitted pieces and the
      tree agree point by point. */
  lemma ClipAgrees<T>(c: seq<Interval<T>>, min: int, max: int, l: int, r: int)
    requires Partitions(c, min, max) && min <= l <= r <= max
    ensures forall p :: l <= p <= r ==> ValueAt(Clip(c, l, r), p) == ValueAt(c, p)
  {
    var e := Clip(c, l, r);
    ClipPartitions(c, min, max, l, r);
    ClipValues(c, l, r);
    forall p | l <= p <= r
      ensures ValueAt(e, p) == ValueAt(c, p)
    {
      LocateInDomain(e, l, r, p);
    }
  }
}
