/** karm-base/slice.h: read-only slices are sequence values, mutable slices
    are windows onto an array the caller owns. */
module Slices {
  import opened Base

  /** `MutSlice<T>`: the window `[off, off + len)` of `arr`. */
  datatype MutSlice<T> = MutSlice(arr: array<T>, off: nat, len: nat)
  {
    ghost predicate Valid()
    {
      off + len <= arr.Length
    }

    ghost function Contents(): seq<T>
      reads arr
      requires Valid()
    {
      arr[off..off + len]
    }
  }

  /** Two windows that share no element. */
  ghost predicate Disjoint<T>(a: MutSlice<T>, b: MutSlice<T>)
  {
    a.arr != b.arr || a.off + a.len <= b.off || b.off + b.len <= a.off
  }

  /** `s` with the elements from index `at` on replaced by `w`. */
  function Overwrite<T>(s: seq<T>, at: nat, w: seq<T>): (r: seq<T>)
    requires at + |w| <= |s|
    ensures |r| == |s|
  {
    s[..at] + w + s[at + |w|..]
  }

  /* --- Sub-slicing ------------------------------------------------------- */

  /** `sub(slice, start, end)`: starts at `start`, ends at `end` clamped into
      `[start, len]`. A `start` past the end would point outside the slice. */
  function Sub<T>(s: seq<T>, start: nat, end: nat): (r: seq<T>)
    requires start <= |s|
    ensures |r| == Clamp(end, start, |s|) - start
    ensures forall i | 0 <= i < |r| :: r[i] == s[start + i]
    ensures start <= end <= |s| ==> r == s[start..end]
  {
    s[start..Clamp(end, start, |s|)]
  }

  /** `next(slice, start)`: everything from `start` on. */
  function Next<T>(s: seq<T>, start: nat): (r: seq<T>)
    requires start <= |s|
    ensures r == s[start..]
  {
    Sub(s, start, |s|)
  }

  /** `mutSub(slice, start, end)`: the same window arithmetic on a mutable slice. */
  function MutSub<T>(s: MutSlice<T>, start: nat, end: nat): (r: MutSlice<T>)
    requires s.Valid() && start <= s.len
    ensures r.Valid() && r.arr == s.arr && r.off == s.off + start
    ensures r.len == Clamp(end, start, s.len) - start
  {
    MutSlice(s.arr, s.off + start, Clamp(end, start, s.len) - start)
  }

  /** `mutNext(slice, start)`. */
  function MutNext<T>(s: MutSlice<T>, start: nat): (r: MutSlice<T>)
    requires s.Valid() && start <= s.len
    ensures r.Valid() && r.arr == s.arr && r.off == s.off + start && r.len == s.len - start
  {
    MutSub(s, start, s.len)
  }

  /** A mutable sub-slice views exactly the elements `Sub` selects. */
  lemma MutSubContents<T>(s: MutSlice<T>, start: nat, end: nat)
    requires s.Valid() && start <= s.len
    ensures MutSub(s, start, end).Contents() == Sub(s.Contents(), start, end)
  {
  }

  function IsEmpty<T>(s: seq<T>): (r: bool)
    ensures r <==> s == []
  {
    |s| == 0
  }

  /** `first(slice)`; reading an empty slice is undefined in the source. */
  function First<T>(s: seq<T>): (r: T)
    requires |s| > 0
    ensures r == s[0]
  {
    s[0]
  }

  /** `last(slice)`. */
  function Last<T>(s: seq<T>): (r: T)
    requires |s| > 0
    ensures r == s[|s| - 1]
  {
    s[|s| - 1]
  }

  /** Writing one more element just past an overwritten run extends the run. */
  lemma OverwriteStep<T>(s: seq<T>, at: nat, w: seq<T>, x: T)
    requires at + |w| < |s|
    ensures Overwrite(s, at, w)[at + |w| := x] == Overwrite(s, at, w + [x])
  {
    var a, b := Overwrite(s, at, w)[at + |w| := x], Overwrite(s, at, w + [x]);
    forall k | 0 <= k < |s|
      ensures a[k] == b[k]
    {
      if at <= k < at + |w| + 1 {
        assert b[k] == b[at..at + |w| + 1][k - at];
        if k < at + |w| {
          assert a[k] == Overwrite(s, at, w)[at..at + |w|][k - at];
        }
      }
    }
  }

  /* --- In-place operations -------------------------------------------------- */

  /** The array after the forward loop `a[to + i] := a[from + i]`, `i < n`,
      has run on one array whose two windows may overlap. */
  function ForwardCopy<T>(a: seq<T>, from: nat, to: nat, n: nat): (r: seq<T>)
    requires from + n <= |a| && to + n <= |a|
    ensures |r| == |a|
  {
    if n == 0 then a
    else
      var b := ForwardCopy(a, from, to, n - 1);
      b[to + n - 1 := b[from + n - 1]]
  }

  /** Element `k` after the forward loop, stated without the loop: outside the
      window it is untouched; inside, the source run when the destination does
      not start after the source, and otherwise the first `to - from` source
      elements repeated through the window. */
  ghost function Moved<T>(a: seq<T>, from: nat, to: nat, n: nat, k: nat): T
    requires from + n <= |a| && to + n <= |a| && k < |a|
  {
    if to <= k < to + n then
      if to <= from then a[from + (k - to)] else a[from + (k - to) % (to - from)]
    else a[k]
  }

  lemma {:induction false} ForwardCopyAt<T>(a: seq<T>, from: nat, to: nat, n: nat)
    requires from + n <= |a| && to + n <= |a|
    ensures forall k | 0 <= k < |a| :: ForwardCopy(a, from, to, n)[k] == Moved(a, from, to, n, k)
  {
    if n > 0 {
      var j := n - 1;
      ForwardCopyAt(a, from, to, j);
      var b := ForwardCopy(a, from, to, j);
      assert b[from + j] == Moved(a, from, to, n, to + j) by {
        if from < to {
          var d := to - from;
          if from + j < to {
            ModUnique(j, 0, d, j);
          } else {
            ModShift(j, 1, d);
            assert from + j - to == j - 1 * d;
          }
        }
      }
    }
  }

  /** When the destination does not start inside the source run, the forward
      loop moves the source run unchanged. */
  lemma ForwardCopyNoOverlap<T>(a: seq<T>, from: nat, to: nat, n: nat)
    requires from + n <= |a| && to + n <= |a|
    requires to <= from || from + n <= to
    ensures ForwardCopy(a, from, to, n) == Overwrite(a, to, a[from..from + n])
  {
    ForwardCopyAt(a, from, to, n);
    forall k | to <= k < to + n
      ensures ForwardCopy(a, from, to, n)[k] == a[from..from + n][k - to]
    {
      if from < to {
        ModUnique(k - to, 0, to - from, k - to);
      }
    }
    Reassembled(ForwardCopy(a, from, to, n), a, to, a[from..from + n]);
  }

  /** A destination one place after its source repeats the first element:
      moving `[0, 2)` of `[1, 2, 3]` onto `[1, 3)` leaves `[1, 1, 1]`. */
  lemma ForwardCopyRepeats()
    ensures ForwardCopy([1, 2, 3], 0, 1, 2) == [1, 1, 1]
  {
  }

  /** One more element of `w` written in place extends the overwritten prefix. */
  lemma OverwriteGrows<T>(s: seq<T>, at: nat, w: seq<T>, i: nat)
    requires i < |w| && at + |w| <= |s|
    ensures Overwrite(s, at, w[..i])[at + i := w[i]] == Overwrite(s, at, w[..i + 1])
  {
    OverwriteStep(s, at, w[..i], w[i]);
    assert w[..i] + [w[i]] == w[..i + 1];
  }

  /** The destination after the loop `d[to + i] := s[from + i]`, `i < n`, has
      run with the source in another array. */
  function Transfer<T>(d: seq<T>, s: seq<T>, from: nat, to: nat, n: nat): (r: seq<T>)
    requires from + n <= |s| && to + n <= |d|
    ensures |r| == |d|
  {
    if n == 0 then d else Transfer(d, s, from, to, n - 1)[to + n - 1 := s[from + n - 1]]
  }

  /** With the source in another array, the loop writes the source run over the
      destination window. */
  lemma {:induction false} TransferOverwrites<T>(d: seq<T>, s: seq<T>, from: nat, to: nat, n: nat)
    requires from + n <= |s| && to + n <= |d|
    ensures Transfer(d, s, from, to, n) == Overwrite(d, to, s[from..from + n])
  {
    if n > 0 {
      var w := s[from..from + n];
      calc {
        Transfer(d, s, from, to, n);
        Transfer(d, s, from, to, n - 1)[to + n - 1 := s[from + n - 1]];
        { TransferOverwrites(d, s, from, to, n - 1);
          assert w[..n - 1] == s[from..from + n - 1]; }
        Overwrite(d, to, w[..n - 1])[to + n - 1 := w[n - 1]];
        { OverwriteGrows(d, to, w, n - 1); }
        Overwrite(d, to, w[..n]);
        { assert w[..n] == w; }
        Overwrite(d, to, w);
      }
    }
  }

  /** `move(src, dest)`: transfers `min(len src, len dest)` elements with a
      forward loop; the windows may be anywhere, in one array or in two. */
  method Move<T>(src: MutSlice<T>, dest: MutSlice<T>) returns (l: nat)
    requires src.Valid() && dest.Valid()
    modifies dest.arr
    ensures l == Min(src.len, dest.len)
    ensures src.arr == dest.arr ==> dest.arr[..] == ForwardCopy(old(dest.arr[..]), src.off, dest.off, l)
    ensures Disjoint(src, dest) || dest.off <= src.off ==>
      dest.arr[..] == Overwrite(old(dest.arr[..]), dest.off, old(src.arr[src.off..src.off + l]))
  {
    l := Min(src.len, dest.len);
    ghost var was, from, same := dest.arr[..], src.arr[..], src.arr == dest.arr;
    ghost var run := src.arr[src.off..src.off + l];
    for i := 0 to l
      invariant !same ==> src.arr[..] == from
      invariant !same ==> dest.arr[..] == Transfer(was, from, src.off, dest.off, i)
      invariant same ==> dest.arr[..] == ForwardCopy(was, src.off, dest.off, i)
    {
      ghost var before := dest.arr[..];
      dest.arr[dest.off + i] := src.arr[src.off + i];
      assert dest.arr[..] == before[dest.off + i := if same then before[src.off + i] else from[src.off + i]];
    }
    if Disjoint(src, dest) || dest.off <= src.off {
      MoveOutcome(was, from, run, dest.arr[..], same, src.off, dest.off, l);
    }
  }

  /** What the forward loop of `move` leaves, as an overwrite of the destination
      window, whenever the windows do not overlap with the destination after the source. */
  lemma MoveOutcome<T>(was: seq<T>, from: seq<T>, run: seq<T>, final: seq<T>, same: bool, so: nat, to: nat, n: nat)
    requires so + n <= |from| && to + n <= |was| && run == from[so..so + n]
    requires same ==> from == was && final == ForwardCopy(was, so, to, n)
    requires !same ==> final == Transfer(was, from, so, to, n)
    requires !same || to <= so || so + n <= to
    ensures final == Overwrite(was, to, run)
  {
    if !same {
      TransferOverwrites(was, from, so, to, n);
    } else if to <= so || so + n <= to {
      ForwardCopyNoOverlap(was, so, to, n);
    }
  }

  /** `copy(src, dest)`: writes and counts `min(len src, len dest)` elements. */
  method Copy<T>(src: seq<T>, dest: MutSlice<T>) returns (copied: nat)
    requires dest.Valid()
    modifies dest.arr
    ensures copied == Min(|src|, dest.len)
    ensures dest.arr[..] == Overwrite(old(dest.arr[..]), dest.off, src[..copied])
  {
    copied := 0;
    var i := 0;
    while i < Min(|src|, dest.len)
      invariant i == copied <= Min(|src|, dest.len)
      invariant dest.arr[..] == Overwrite(old(dest.arr[..]), dest.off, src[..i])
    {
      ghost var before := dest.arr[..];
      dest.arr[dest.off + i] := src[i];
      assert dest.arr[..] == before[dest.off + i := src[i]];
      OverwriteStep(old(dest.arr[..]), dest.off, src[..i], src[i]);
      assert src[..i + 1] == src[..i] + [src[i]];
      copied := copied + 1;
      i := i + 1;
    }
  }

  /** The reversal of a sequence. */
  function Reversed<T>(s: seq<T>): (r: seq<T>)
    ensures |r| == |s|
  {
    seq(|s|, i requires 0 <= i < |s| => s[|s| - 1 - i])
  }

  lemma ReversedInvolutive<T>(s: seq<T>)
    ensures Reversed(Reversed(s)) == s
  {
  }

  /** `first` and `last` trade places under reversal. */
  lemma FirstLastReversed<T>(s: seq<T>)
    requires |s| > 0
    ensures First(Reversed(s)) == Last(s) && Last(Reversed(s)) == First(s)
  {
  }

  /** `first` and `last` of a non-empty `sub(s, i, j)` are `s[i]` and `s[j - 1]`. */
  lemma FirstLastOfSub<T>(s: seq<T>, i: nat, j: nat)
    requires i < j <= |s|
    ensures First(Sub(s, i, j)) == s[i] && Last(Sub(s, i, j)) == s[j - 1]
  {
  }

  /** `reverse(slice)`: swaps element `i` with element `len - 1 - i`. */
  method Reverse<T>(s: MutSlice<T>)
    requires s.Valid()
    modifies s.arr
    ensures s.arr[..] == Overwrite(old(s.arr[..]), s.off, Reversed(old(s.Contents())))
  {
    ghost var was := s.Contents();
    var lo, hi := s.off, s.off + s.len;
    var i := 0;
    while i < s.len / 2
      invariant 0 <= i <= s.len / 2
      invariant s.arr[..lo] == old(s.arr[..lo]) && s.arr[hi..] == old(s.arr[hi..])
      invariant forall k | lo <= k < hi :: s.arr[k] == if lo + i <= k < hi - i then was[k - lo] else was[hi - 1 - k]
    {
      s.arr[lo + i], s.arr[hi - 1 - i] := s.arr[hi - 1 - i], s.arr[lo + i];
      i := i + 1;
    }
    Reassembled(s.arr[..], old(s.arr[..]), lo, Reversed(was));
  }

  /** A sequence that agrees with `w` on the window at `lo` and with `s`
      everywhere else is `s` overwritten with `w`. */
  lemma Reassembled<T>(r: seq<T>, s: seq<T>, lo: nat, w: seq<T>)
    requires |r| == |s| && lo + |w| <= |s|
    requires forall k | 0 <= k < |s| && !(lo <= k < lo + |w|) :: r[k] == s[k]
    requires forall k | lo <= k < lo + |w| :: r[k] == w[k - lo]
    ensures r == Overwrite(s, lo, w)
  {
  }

  /** `fill(slice, value)`: every element becomes `value`; returns the length. */
  method Fill<T>(s: MutSlice<T>, value: T) returns (n: nat)
    requires s.Valid()
    modifies s.arr
    ensures n == s.len
    ensures s.arr[..] == Overwrite(old(s.arr[..]), s.off, seq(s.len, _ => value))
  {
    for i := 0 to s.len
      invariant s.arr[..] == Overwrite(old(s.arr[..]), s.off, seq(i, _ => value))
    {
      s.arr[s.off + i] := value;
      assert seq(i + 1, _ => value) == seq(i, _ => value) + [value];
    }
    n := s.len;
  }

  /** `zeroFill(slice)`: `fill` with the default (zero) byte. */
  method ZeroFill(s: MutSlice<Byte>) returns (n: nat)
    requires s.Valid()
    modifies s.arr
    ensures n == s.len
    ensures s.arr[..] == Overwrite(old(s.arr[..]), s.off, seq(s.len, _ => 0))
  {
    n := Fill(s, 0);
  }

  /* --- Sorting --------------------------------------------------------- */

  ghost predicate Sorted(s: seq<int>)
  {
    forall i, j | 0 <= i < j < |s| :: s[i] <= s[j]
  }

  ghost predicate AllAtMost(s: seq<int>, p: int)
  {
    forall i | 0 <= i < |s| :: s[i] <= p
  }

  ghost predicate AllAtLeast(s: seq<int>, p: int)
  {
    forall i | 0 <= i < |s| :: s[i] >= p
  }

  /** `after` holds the elements of `before`, rearranged within `[lo, hi)` only. */
  ghost predicate PermutedWithin(before: seq<int>, after: seq<int>, lo: nat, hi: nat)
  {
    lo <= hi <= |before| == |after|
    && (forall k | 0 <= k < |before| && !(lo <= k < hi) :: after[k] == before[k])
    && multiset(after[lo..hi]) == multiset(before[lo..hi])
  }

  lemma PermutedWithinTrans(a: seq<int>, b: seq<int>, c: seq<int>, lo: nat, hi: nat)
    requires PermutedWithin(a, b, lo, hi) && PermutedWithin(b, c, lo, hi)
    ensures PermutedWithin(a, c, lo, hi)
  {
  }

  /** Rearranging a sub-window rearranges every window around it. */
  lemma {:induction false} PermutedWithinWiden(a: seq<int>, b: seq<int>, lo': nat, hi': nat, lo: nat, hi: nat)
    requires PermutedWithin(a, b, lo', hi') && lo <= lo' && hi' <= hi <= |a|
    ensures PermutedWithin(a, b, lo, hi)
  {
    assert a[lo..hi] == a[lo..lo'] + a[lo'..hi'] + a[hi'..hi];
    assert b[lo..hi] == b[lo..lo'] + b[lo'..hi'] + b[hi'..hi];
    assert a[lo..lo'] == b[lo..lo'];
    assert a[hi'..hi] == b[hi'..hi];
  }

  /** A bound on every element survives a permutation. */
  lemma {:induction false} BoundsSurvivePermutation(s: seq<int>, t: seq<int>, p: int)
    requires multiset(s) == multiset(t)
    ensures AllAtMost(s, p) ==> AllAtMost(t, p)
    ensures AllAtLeast(s, p) ==> AllAtLeast(t, p)
  {
    forall i | 0 <= i < |t|
      ensures t[i] in s
    {
      assert t[i] in multiset(t);
    }
  }

  /** Three sorted runs, bounded by a common pivot, concatenate to a sorted run. */
  lemma {:induction false} SortedAround(a: seq<int>, m: seq<int>, b: seq<int>, p: int)
    requires Sorted(a) && Sorted(b) && AllAtMost(a, p) && AllAtLeast(b, p)
    requires forall i | 0 <= i < |m| :: m[i] == p
    requires |m| <= 1
    ensures Sorted(a + m + b)
  {
    var s := a + m + b;
    forall i, j | 0 <= i < j < |s|
      ensures s[i] <= s[j]
    {
      if j < |a| {
      } else if i >= |a| + |m| {
        assert s[i] == b[i - |a| - |m|] && s[j] == b[j - |a| - |m|];
      } else if i < |a| {
        assert s[i] <= p;
        if j < |a| + |m| { assert s[j] == m[j - |a|]; } else { assert s[j] == b[j - |a| - |m|]; }
      } else {
        assert s[i] == m[i - |a|];
        assert s[j] == b[j - |a| - |m|];
      }
    }
  }

  /** The recursion step of quicksort: partition `p0` into `p1` around `pivot`,
      sort the low part into `p2`, sort the high part into `p3`. */
  lemma {:induction false} QuicksortStep(p0: seq<int>, p1: seq<int>, p2: seq<int>, p3: seq<int>,
                                         lo: nat, right: nat, left: nat, hi: nat, pivot: int)
    requires lo <= right < left <= right + 2 && left <= hi
    requires PermutedWithin(p0, p1, lo, hi)
    requires AllAtMost(p1[lo..left], pivot) && AllAtLeast(p1[right + 1..hi], pivot)
    requires PermutedWithin(p1, p2, lo, right + 1) && Sorted(p2[lo..right + 1])
    requires PermutedWithin(p2, p3, left, hi) && Sorted(p3[left..hi])
    ensures PermutedWithin(p0, p3, lo, hi) && Sorted(p3[lo..hi])
  {
    PermutedThrough(p0, p1, p2, p3, lo, right + 1, left, hi);
    UntouchedOutside(p2, p3, left, hi, lo, left);
    UntouchedOutside(p1, p2, lo, right + 1, right + 1, hi);
    QuicksortSorted(p1, p2, p3, lo, right, left, hi, pivot);
  }

  /** The sorting half of the recursion step, on the facts it needs. */
  lemma {:induction false} QuicksortSorted(p1: seq<int>, p2: seq<int>, p3: seq<int>,
                                           lo: nat, right: nat, left: nat, hi: nat, pivot: int)
    requires lo <= right < left <= right + 2 && left <= hi <= |p1| == |p2| == |p3|
    requires AllAtMost(p1[lo..left], pivot) && AllAtLeast(p1[right + 1..hi], pivot)
    requires multiset(p2[lo..right + 1]) == multiset(p1[lo..right + 1]) && Sorted(p2[lo..right + 1])
    requires multiset(p3[left..hi]) == multiset(p2[left..hi]) && Sorted(p3[left..hi])
    requires p3[lo..left] == p2[lo..left] && p2[right + 1..hi] == p1[right + 1..hi]
    ensures Sorted(p3[lo..hi])
  {
    var low, mid, high := p3[lo..right + 1], p3[right + 1..left], p3[left..hi];
    assert p3[lo..hi] == low + mid + high;
    EqualWithin(p3, p2, lo, left, lo, right + 1);
    EqualWithin(p3, p2, lo, left, right + 1, left);
    EqualWithin(p2, p1, right + 1, hi, right + 1, left);
    EqualWithin(p2, p1, right + 1, hi, left, hi);
    PartitionParts(p1, lo, right, left, hi, pivot);
    BoundsSurvivePermutation(p1[lo..right + 1], low, pivot);
    BoundsSurvivePermutation(p2[left..hi], high, pivot);
    forall i | 0 <= i < |mid|
      ensures mid[i] == pivot
    {
      assert mid[i] == p1[right + 1..left][i] == p1[right + 1 + i];
    }
    SortedAround(low, mid, high, pivot);
  }

  /** Two sequences equal on a window are equal on every window inside it. */
  lemma EqualWithin<T>(a: seq<T>, b: seq<T>, i: nat, j: nat, i': nat, j': nat)
    requires i <= i' <= j' <= j <= |a| && j <= |b| && a[i..j] == b[i..j]
    ensures a[i'..j'] == b[i'..j']
  {
    forall k | i' <= k < j'
      ensures a[k] == b[k]
    {
      assert a[k] == a[i..j][k - i] && b[k] == b[i..j][k - i];
    }
  }

  /** A rearrangement of `[lo, hi)` leaves every window outside it as it was. */
  lemma UntouchedOutside(a: seq<int>, b: seq<int>, lo: nat, hi: nat, i: nat, j: nat)
    requires PermutedWithin(a, b, lo, hi) && i <= j <= |a| && (j <= lo || hi <= i)
    ensures b[i..j] == a[i..j]
  {
    assert forall k | i <= k < j :: b[k] == a[k];
  }

  /** Partitioning and then rearranging two parts of the window rearranges the window. */
  lemma PermutedThrough(p0: seq<int>, p1: seq<int>, p2: seq<int>, p3: seq<int>, lo: nat, mid: nat, left: nat, hi: nat)
    requires lo <= mid <= hi && lo <= left <= hi
    requires PermutedWithin(p0, p1, lo, hi)
    requires PermutedWithin(p1, p2, lo, mid) && PermutedWithin(p2, p3, left, hi)
    ensures PermutedWithin(p0, p3, lo, hi)
  {
    PermutedWithinWiden(p1, p2, lo, mid, lo, hi);
    PermutedWithinWiden(p2, p3, left, hi, lo, hi);
    PermutedWithinTrans(p0, p1, p2, lo, hi);
    PermutedWithinTrans(p0, p2, p3, lo, hi);
  }

  /** The three parts a partition leaves: at most the pivot, equal to it,
      at least the pivot. */
  lemma {:induction false} PartitionParts(p: seq<int>, lo: nat, right: nat, left: nat, hi: nat, pivot: int)
    requires lo <= right < left <= right + 2 && left <= hi <= |p|
    requires AllAtMost(p[lo..left], pivot) && AllAtLeast(p[right + 1..hi], pivot)
    ensures AllAtMost(p[lo..right + 1], pivot)
    ensures forall k | right + 1 <= k < left :: p[k] == pivot
    ensures AllAtLeast(p[left..hi], pivot)
  {
    var below, above := p[lo..left], p[right + 1..hi];
    var low, high := p[lo..right + 1], p[left..hi];
    forall i | 0 <= i < |low|
      ensures low[i] <= pivot
    {
      assert low[i] == below[i];
    }
    forall k | right + 1 <= k < left
      ensures p[k] == pivot
    {
      assert p[k] == below[k - lo] == above[k - right - 1];
    }
    forall i | 0 <= i < |high|
      ensures high[i] >= pivot
    {
      assert high[i] == above[left - right - 1 + i];
    }
  }

  /** Exchanges two elements of the window `a[lo..hi]`, which keeps it a
      rearrangement of `orig`. */
  method Swap(a: array<int>, lo: nat, hi: nat, i: nat, j: nat, ghost orig: seq<int>)
    requires lo <= i < hi <= a.Length && lo <= j < hi
    requires PermutedWithin(orig, a[..], lo, hi)
    modifies a
    ensures a[i] == old(a[j]) && a[j] == old(a[i])
    ensures forall k | 0 <= k < a.Length && k != i && k != j :: a[k] == old(a[k])
    ensures PermutedWithin(orig, a[..], lo, hi)
  {
    ghost var w := a[..];
    a[i], a[j] := a[j], a[i];
    SwapPermutes(w, lo, hi, i, j);
    PermutedWithinTrans(orig, w, a[..], lo, hi);
  }

  lemma SwapPermutes(w: seq<int>, lo: nat, hi: nat, i: nat, j: nat)
    requires lo <= i < hi <= |w| && lo <= j < hi
    ensures PermutedWithin(w, w[i := w[j]][j := w[i]], lo, hi)
  {
    assert w[i := w[j]][j := w[i]][lo..hi] == w[lo..hi][i - lo := w[j]][j - lo := w[i]];
  }

  /** The first scan of the partition loop: `left` skips the elements below the pivot. */
  method ScanUp(a: array<int>, lo: nat, hi: nat, l0: nat, r: int, ghost sl: nat, pivot: int) returns (l: nat)
    requires lo <= l0 <= r < hi <= a.Length && l0 <= sl < hi && a[sl] >= pivot
    requires forall k | lo <= k < l0 :: a[k] <= pivot
    requires forall k | r < k < hi :: a[k] >= pivot
    ensures l0 <= l <= sl && l <= r + 1 && a[l] >= pivot
    ensures forall k | lo <= k < l :: a[k] <= pivot
  {
    l := l0;
    while a[l] < pivot
      invariant l0 <= l <= sl && l <= r + 1
      invariant forall k | lo <= k < l :: a[k] <= pivot
      decreases sl - l
    {
      l := l + 1;
    }
  }

  /** The second scan of the partition loop: `right` skips the elements above the pivot. */
  method ScanDown(a: array<int>, lo: nat, hi: nat, l: nat, r0: int, ghost sr: nat, pivot: int) returns (r: int)
    requires lo <= sr <= r0 < hi <= a.Length && a[sr] <= pivot && lo <= l <= r0 + 1
    requires forall k | lo <= k < l :: a[k] <= pivot
    requires forall k | r0 < k < hi :: a[k] >= pivot
    ensures sr <= r <= r0 && l - 1 <= r && a[r] <= pivot
    ensures forall k | r < k < hi :: a[k] >= pivot
  {
    r := r0;
    while a[r] > pivot
      invariant sr <= r <= r0 && l - 1 <= r
      invariant forall k | r < k < hi :: a[k] >= pivot
      decreases r
    {
      r := r - 1;
    }
  }

  /** The partition loop of `sort` on `a[lo..hi]`: `left` and `right` move
      towards each other around the value of the middle element, swapping
      misplaced pairs. */
  method Partition(a: array<int>, lo: nat, hi: nat) returns (left: nat, right: nat, pivot: int)
    requires lo + 2 <= hi <= a.Length
    modifies a
    ensures PermutedWithin(old(a[..]), a[..], lo, hi)
    ensures lo < left <= hi && lo <= right && right + 1 < hi && right < left <= right + 2
    ensures AllAtMost(a[lo..left], pivot) && AllAtLeast(a[right + 1..hi], pivot)
  {
    var m := lo + (hi - lo) / 2;
    pivot := a[m];
    var l: int, r: int := lo, hi - 1;
    ghost var sl, sr := m, m;
    while l <= r
      invariant lo <= l <= hi && lo <= r < hi && l <= r + 2
      invariant PermutedWithin(old(a[..]), a[..], lo, hi)
      invariant forall k | lo <= k < l :: a[k] <= pivot
      invariant forall k | r < k < hi :: a[k] >= pivot
      invariant l <= r ==> l <= sl < hi && a[sl] >= pivot && lo <= sr <= r && a[sr] <= pivot
      invariant l == lo ==> r == hi - 1 && sl == m && sr == m
      invariant l > lo ==> r <= hi - 2
      decreases r - l + 2
    {
      l := ScanUp(a, lo, hi, l, r, sl, pivot);
      r := ScanDown(a, lo, hi, l, r, sr, pivot);
      if l <= r {
        Swap(a, lo, hi, l, r, old(a[..]));
        sl, sr := r, l;
        l, r := l + 1, r - 1;
      }
    }
    left, right := l, r;
  }

  /** `sort(slice, cmp)`, the in-place quicksort, on integers under their
      natural order: leaves the window sorted, holding the same elements,
      and the rest of the array untouched. */
  method Sort(s: MutSlice<int>)
    requires s.Valid()
    modifies s.arr
    ensures PermutedWithin(old(s.arr[..]), s.arr[..], s.off, s.off + s.len)
    ensures Sorted(s.Contents())
  {
    SortWindow(s.arr, s.off, s.off + s.len);
  }

  /** The recursion of `sort` on the window `a[lo..hi]`. */
  method SortWindow(a: array<int>, lo: nat, hi: nat)
    requires lo <= hi <= a.Length
    modifies a
    ensures PermutedWithin(old(a[..]), a[..], lo, hi)
    ensures Sorted(a[lo..hi])
    decreases hi - lo
  {
    if hi - lo <= 1 {
      return;
    }
    var left, right, pivot := Partition(a, lo, hi);
    ghost var p1 := a[..];
    SortWindow(a, lo, right + 1);
    ghost var p2 := a[..];
    SortWindow(a, left, hi);
    QuicksortStep(old(a[..]), p1, p2, a[..], lo, right, left, hi, pivot);
  }

  /* --- Binary search ----------------------------------------------------- */

  function Rank(o: Ordr): nat
  {
    match o
    case Lt => 0
    case Eq => 1
    case Gt => 2
  }

  /** The probe results never go down along the slice: the elements comparing
      less come first, then the equal ones, then the greater ones. */
  ghost predicate Monotone<T>(s: seq<T>, cmp: T -> Ordr)
  {
    forall i, j | 0 <= i <= j < |s| :: Rank(cmp(s[i])) <= Rank(cmp(s[j]))
  }

  /** `search(slice, cmp)`: binary search for an element the probe calls equal. */
  method Search<T>(s: seq<T>, cmp: T -> Ordr) returns (r: Option<nat>)
    ensures r.Some? ==> r.value < |s| && cmp(s[r.value]) == Eq
    ensures |s| == 0 || cmp(s[0]) == Gt || cmp(s[|s| - 1]) == Lt ==> r == None
    ensures Monotone(s, cmp) ==> (r == None <==> forall i | 0 <= i < |s| :: cmp(s[i]) != Eq)
  {
    if |s| == 0 {
      return None;
    }
    if cmp(s[0]) == Gt {
      return None;
    }
    if cmp(s[|s| - 1]) == Lt {
      return None;
    }
    var left: int, right: int := 0, |s| - 1;
    while left <= right
      invariant 0 <= left <= right + 1 <= |s|
      invariant left == 0 || cmp(s[0]) != Gt
      invariant Monotone(s, cmp) ==> forall i | 0 <= i < left :: cmp(s[i]) == Lt
      invariant Monotone(s, cmp) ==> forall i | right < i < |s| :: cmp(s[i]) == Gt
      decreases right - left + 1
    {
      var mid := (left + right) / 2;
      var result := cmp(s[mid]);
      if result == Eq {
        return Some(mid);
      }
      if result == Lt {
        left := mid + 1;
      } else {
        // `right` is unsigned in the source: the early `Gt` exit keeps it from wrapping.
        assert mid > 0;
        right := mid - 1;
      }
    }
    return None;
  }

  /* --- Split iterators ------------------------------------------------------ */

  /** The first separator at or after `i`, or the length when there is none. */
  function NextSep<T(==)>(s: seq<T>, sep: T, i: nat): (e: nat)
    requires i <= |s|
    ensures i <= e <= |s|
    ensures e < |s| ==> s[e] == sep
    ensures forall k | i <= k < e :: s[k] != sep
    decreases |s| - i
  {
    if i == |s| || s[i] == sep then i else NextSep(s, sep, i + 1)
  }

  /** The last position at or before `i` that starts a piece: 0 or just past a separator. */
  function PrevSep<T(==)>(s: seq<T>, sep: T, i: nat): (b: nat)
    requires i <= |s|
    ensures b <= i
    ensures b > 0 ==> s[b - 1] == sep
    ensures forall k | b <= k < i :: s[k] != sep
  {
    if i == 0 || s[i - 1] == sep then i else PrevSep(s, sep, i - 1)
  }

  /** Where a forward split iterator resumes after the piece ending at `e`. */
  function After(n: nat, e: nat): nat
  {
    if e < n then e + 1 else e
  }

  /** The pieces `iterSplit` yields from position `i` on. */
  function SplitFrom<T(==)>(s: seq<T>, sep: T, i: nat): seq<seq<T>>
    requires i <= |s|
    decreases |s| - i
  {
    if i >= |s| then []
    else
      var e := NextSep(s, sep, i);
      [s[i..e]] + SplitFrom(s, sep, After(|s|, e))
  }

  /** The prefixes `iterLevelSplit` yields from position `i` on. */
  function LevelSplitFrom<T(==)>(s: seq<T>, sep: T, i: nat): seq<seq<T>>
    requires i <= |s|
    decreases |s| - i
  {
    if i >= |s| then []
    else
      var e := NextSep(s, sep, i);
      [s[..e]] + LevelSplitFrom(s, sep, After(|s|, e))
  }

  /** The pieces `iterSplitRev` yields, right to left, from position `i` down. */
  function SplitRevFrom<T(==)>(s: seq<T>, sep: T, i: nat): seq<seq<T>>
    requires i <= |s|
  {
    if i == 0 then []
    else
      var b := PrevSep(s, sep, i);
      [s[b..i]] + SplitRevFrom(s, sep, if b > 0 then b - 1 else 0)
  }

  /** Pieces glued back together with one separator between neighbours. */
  function Join<T>(ps: seq<seq<T>>, sep: T): seq<T>
  {
    if |ps| == 0 then []
    else if |ps| == 1 then ps[0]
    else ps[0] + [sep] + Join(ps[1..], sep)
  }

  /** Pieces listed right to left, glued back together in reading order. */
  function JoinRev<T>(ps: seq<seq<T>>, sep: T): seq<T>
  {
    if |ps| == 0 then []
    else if |ps| == 1 then ps[0]
    else JoinRev(ps[1..], sep) + [sep] + ps[0]
  }

  /** No piece of a forward split holds the separator. */
  lemma {:induction false} SplitPiecesSepFree<T>(s: seq<T>, sep: T, i: nat)
    requires i <= |s|
    ensures forall p | p in SplitFrom(s, sep, i) :: sep !in p
    decreases |s| - i
  {
    if i < |s| {
      SplitPiecesSepFree(s, sep, After(|s|, NextSep(s, sep, i)));
    }
  }

  /** Joining the pieces gives the input back, except that a trailing
      separator yields no empty last piece. */
  lemma {:induction false} SplitJoin<T>(s: seq<T>, sep: T, i: nat)
    requires i < |s|
    ensures Join(SplitFrom(s, sep, i), sep) + (if s[|s| - 1] == sep then [sep] else []) == s[i..]
    decreases |s| - i
  {
    var e := NextSep(s, sep, i);
    var piece := s[i..e];
    var rest := SplitFrom(s, sep, After(|s|, e));
    var tail: seq<T> := if s[|s| - 1] == sep then [sep] else [];
    assert SplitFrom(s, sep, i) == [piece] + rest;
    if e == |s| {
      assert rest == [] && tail == [];
      assert Join([piece], sep) == piece == s[i..];
    } else if e + 1 == |s| {
      assert rest == [] && tail == [sep];
      assert Join([piece], sep) == piece;
      assert s[i..] == piece + [sep];
    } else {
      SplitJoin(s, sep, e + 1);
      JoinStep(s, sep, i, e, rest, tail);
    }
  }

  /** One piece and its separator in front of the rest of a join. */
  lemma JoinStep<T>(s: seq<T>, sep: T, i: nat, e: nat, rest: seq<seq<T>>, tail: seq<T>)
    requires i <= e && e + 1 < |s| && s[e] == sep && rest != []
    requires Join(rest, sep) + tail == s[e + 1..]
    ensures Join([s[i..e]] + rest, sep) + tail == s[i..]
  {
    JoinCons(s[i..e], rest, sep);
    assert s[i..] == s[i..e] + [sep] + s[e + 1..];
  }

  /** One piece and its separator behind the rest of a reverse join. */
  lemma JoinRevStep<T>(s: seq<T>, sep: T, b: nat, i: nat, rest: seq<seq<T>>, head: seq<T>)
    requires 1 < b <= i <= |s| && s[b - 1] == sep && rest != []
    requires head + JoinRev(rest, sep) == s[..b - 1]
    ensures head + JoinRev([s[b..i]] + rest, sep) == s[..i]
  {
    JoinRevCons(s[b..i], rest, sep);
    assert s[..i] == s[..b - 1] + [sep] + s[b..i];
  }

  lemma JoinCons<T>(p: seq<T>, ps: seq<seq<T>>, sep: T)
    requires ps != []
    ensures Join([p] + ps, sep) == p + [sep] + Join(ps, sep)
  {
    assert ([p] + ps)[1..] == ps;
  }

  lemma JoinRevCons<T>(p: seq<T>, ps: seq<seq<T>>, sep: T)
    requires ps != []
    ensures JoinRev([p] + ps, sep) == JoinRev(ps, sep) + [sep] + p
  {
    assert ([p] + ps)[1..] == ps;
  }

  /** `lv` is a prefix of `s` that ends with `p`. */
  ghost predicate PrefixEndingIn<T>(s: seq<T>, lv: seq<T>, p: seq<T>)
  {
    |p| <= |lv| <= |s| && lv == s[..|lv|] && lv[|lv| - |p|..] == p
  }

  /** Each level-split prefix is a prefix of the input that ends with the
      matching piece of the forward split. */
  lemma {:induction false} LevelSplitMatchesSplit<T>(s: seq<T>, sep: T, i: nat)
    requires i <= |s|
    ensures |LevelSplitFrom(s, sep, i)| == |SplitFrom(s, sep, i)|
    ensures forall k | 0 <= k < |SplitFrom(s, sep, i)| ::
      PrefixEndingIn(s, LevelSplitFrom(s, sep, i)[k], SplitFrom(s, sep, i)[k])
    decreases |s| - i
  {
    if i < |s| {
      var e := NextSep(s, sep, i);
      var j := After(|s|, e);
      LevelSplitMatchesSplit(s, sep, j);
      var lvs, ps := LevelSplitFrom(s, sep, i), SplitFrom(s, sep, i);
      assert lvs == [s[..e]] + LevelSplitFrom(s, sep, j);
      assert ps == [s[i..e]] + SplitFrom(s, sep, j);
      forall k | 0 <= k < |ps|
        ensures PrefixEndingIn(s, lvs[k], ps[k])
      {
        if k == 0 {
          assert s[..e][i..] == s[i..e];
        } else {
          assert lvs[k] == LevelSplitFrom(s, sep, j)[k - 1] && ps[k] == SplitFrom(s, sep, j)[k - 1];
        }
      }
    }
  }

  /** No piece of a reverse split holds the separator. */
  lemma {:induction false} SplitRevPiecesSepFree<T>(s: seq<T>, sep: T, i: nat)
    requires i <= |s|
    ensures forall p | p in SplitRevFrom(s, sep, i) :: sep !in p
  {
    if i > 0 {
      var b := PrevSep(s, sep, i);
      SplitRevPiecesSepFree(s, sep, if b > 0 then b - 1 else 0);
    }
  }

  /** Joining the reverse pieces in reading order gives the input back,
      except that a leading separator yields no empty first piece. */
  lemma {:induction false} SplitRevJoin<T>(s: seq<T>, sep: T, i: nat)
    requires 0 < i <= |s|
    ensures (if s[0] == sep then [sep] else []) + JoinRev(SplitRevFrom(s, sep, i), sep) == s[..i]
  {
    var b := PrevSep(s, sep, i);
    var piece := s[b..i];
    var rest := SplitRevFrom(s, sep, if b > 0 then b - 1 else 0);
    assert SplitRevFrom(s, sep, i) == [piece] + rest;
    if b == 0 {
      assert rest == [];
      assert s[0] != sep;
      assert JoinRev([piece], sep) == piece;
    } else if b == 1 {
      assert rest == [];
      assert JoinRev([piece], sep) == piece;
      assert s[..i] == [sep] + piece;
    } else {
      SplitRevJoin(s, sep, b - 1);
      JoinRevStep(s, sep, b, i, rest, if s[0] == sep then [sep] else []);
    }
  }

  /** `iterSplit(slice, sep)`: the lambda's captured cursor `i`. */
  class SplitIter<T(==)> {
    const s: seq<T>
    const sep: T
    var i: nat

    ghost predicate Valid()
      reads this
    {
      i <= |s|
    }

    /** The pieces still to come. */
    ghost function Remaining(): seq<seq<T>>
      reads this
      requires Valid()
    {
      SplitFrom(s, sep, i)
    }

    constructor (s: seq<T>, sep: T)
      ensures Valid() && this.s == s && this.sep == sep
      ensures Remaining() == SplitFrom(s, sep, 0)
    {
      this.s, this.sep, i := s, sep, 0;
    }

    method Next() returns (r: Option<seq<T>>)
      requires Valid()
      modifies this
      ensures Valid()
      ensures old(Remaining()) == [] ==> r == None && Remaining() == []
      ensures old(Remaining()) != [] ==> r == Some(old(Remaining())[0]) && Remaining() == old(Remaining())[1..]
    {
      if i >= |s| {
        return None;
      }
      var start := i;
      while i < |s| && s[i] != sep
        invariant start <= i <= |s|
        invariant forall k | start <= k < i :: s[k] != sep
        decreases |s| - i
      {
        i := i + 1;
      }
      var end := i;
      NextSepIs(s, sep, start, end);
      if i < |s| {
        i := i + 1;
      }
      r := Some(s[start..end]);
    }
  }

  /** `iterLevelSplit(slice, sep)`: like `iterSplit`, but every piece starts at the slice's start. */
  class LevelSplitIter<T(==)> {
    const s: seq<T>
    const sep: T
    var i: nat

    ghost predicate Valid()
      reads this
    {
      i <= |s|
    }

    ghost function Remaining(): seq<seq<T>>
      reads this
      requires Valid()
    {
      LevelSplitFrom(s, sep, i)
    }

    constructor (s: seq<T>, sep: T)
      ensures Valid() && this.s == s && this.sep == sep
      ensures Remaining() == LevelSplitFrom(s, sep, 0)
    {
      this.s, this.sep, i := s, sep, 0;
    }

    method Next() returns (r: Option<seq<T>>)
      requires Valid()
      modifies this
      ensures Valid()
      ensures old(Remaining()) == [] ==> r == None && Remaining() == []
      ensures old(Remaining()) != [] ==> r == Some(old(Remaining())[0]) && Remaining() == old(Remaining())[1..]
    {
      if i >= |s| {
        return None;
      }
      ghost var start := i;
      while i < |s| && s[i] != sep
        invariant start <= i <= |s|
        invariant forall k | start <= k < i :: s[k] != sep
        decreases |s| - i
      {
        i := i + 1;
      }
      var end := i;
      NextSepIs(s, sep, start, end);
      if i < |s| {
        i := i + 1;
      }
      r := Some(s[..end]);
    }
  }

  /** `iterSplitRev(slice, sep)`: the pieces from the right, cursor counting down. */
  class SplitRevIter<T(==)> {
    const s: seq<T>
    const sep: T
    var i: nat

    ghost predicate Valid()
      reads this
    {
      i <= |s|
    }

    ghost function Remaining(): seq<seq<T>>
      reads this
      requires Valid()
    {
      SplitRevFrom(s, sep, i)
    }

    constructor (s: seq<T>, sep: T)
      ensures Valid() && this.s == s && this.sep == sep
      ensures Remaining() == SplitRevFrom(s, sep, |s|)
    {
      this.s, this.sep, i := s, sep, |s|;
    }

    method Next() returns (r: Option<seq<T>>)
      requires Valid()
      modifies this
      ensures Valid()
      ensures old(Remaining()) == [] ==> r == None && Remaining() == []
      ensures old(Remaining()) != [] ==> r == Some(old(Remaining())[0]) && Remaining() == old(Remaining())[1..]
    {
      if i == 0 {
        return None;
      }
      var end := i;
      while i > 0 && s[i - 1] != sep
        invariant 0 <= i <= end
        invariant forall k | i <= k < end :: s[k] != sep
      {
        i := i - 1;
      }
      var start := i;
      PrevSepIs(s, sep, end, start);
      if i > 0 {
        i := i - 1;
      }
      r := Some(s[start..end]);
    }
  }

  /** The scan loop of the forward iterators stops where `NextSep` says. */
  lemma {:induction false} NextSepIs<T>(s: seq<T>, sep: T, i: nat, e: nat)
    requires i <= e <= |s|
    requires e < |s| ==> s[e] == sep
    requires forall k | i <= k < e :: s[k] != sep
    ensures NextSep(s, sep, i) == e
    decreases e - i
  {
    if i < e {
      NextSepIs(s, sep, i + 1, e);
    }
  }

  /** The scan loop of the reverse iterator stops where `PrevSep` says. */
  lemma {:induction false} PrevSepIs<T>(s: seq<T>, sep: T, i: nat, b: nat)
    requires b <= i <= |s|
    requires b > 0 ==> s[b - 1] == sep
    requires forall k | b <= k < i :: s[k] != sep
    ensures PrevSep(s, sep, i) == b
  {
    if b < i {
      PrevSepIs(s, sep, i - 1, b);
    }
  }
}

