/** The partition stage on windows: the windows that `partition` slices a
    dataset into, with the `partition_ignore` and `partition_shrink` boundary
    conditions, and what is proved about them. A part is always sliced out of
    the dataset it came from, so the recursion is stated on windows of the
    original dataset; the parts themselves are cut out in module Stages. */
module Partitioning {
  import opened Arrays
  import opened Windows
  import opened Text

  function Min(a: int, b: int): int {
    if a <= b then a else b
  }

  /** Python's range(from, stop, stride) for a positive stride: strictly
      increasing values inside [from, stop). */
  function Range(from: int, stop: int, stride: nat): (r: seq<int>)
    requires stride >= 1
    ensures forall i :: 0 <= i < |r| ==> from <= r[i] < stop
    ensures forall i, j :: 0 <= i < j < |r| ==> r[i] < r[j]
    decreases stop - from
  {
    if from >= stop then [] else [from] + Range(from + stride, stop, stride)
  }

  /** The step of the sliding window: the block width unless `shift` is positive. */
  function Stride(w: nat, shift: int): nat {
    if shift <= 0 then w else shift
  }

  /** Offsets at which an axis of length `n` is sliced: every `w` cells when
      `shift` is not positive; otherwise every `shift` cells, as long as a
      whole block still fits. */
  function Offsets(n: nat, w: nat, shift: int): (r: seq<int>)
    requires w >= 1
    ensures forall i :: 0 <= i < |r| ==> 0 <= r[i] < n
    ensures forall i, j :: 0 <= i < j < |r| ==> r[i] < r[j]
  {
    Range(0, if shift > 0 then n - w + 1 else n, Stride(w, shift))
  }

  /** The first axis longer than the block width, or |b| when there is none. */
  function FirstLong(b: Box, w: nat): (k: nat)
    ensures k <= |b|
    ensures forall j :: 0 <= j < k ==> b[j].len <= w
    ensures k < |b| ==> b[k].len > w
  {
    if b == [] then 0 else if b[0].len > w then 0 else 1 + FirstLong(b[1..], w)
  }

  /** x[..., i:i + w, ...] on axis k: numpy clips the slice to the axis. */
  function Slice(b: Box, k: nat, i: int, w: nat): Box
    requires k < |b| && 0 <= i < b[k].len
  {
    b[k := Span(b[k].start + i, Min(w, b[k].len - i))]
  }

  predicate OffsetsBelow(offs: seq<int>, n: nat) {
    forall t :: 0 <= t < |offs| ==> 0 <= offs[t] < n
  }

  /** The windows `partition` yields, in order: the window itself when no
      axis is longer than the block width `w`, and otherwise the parts of
      each slice of its first long axis. */
  function Parts(b: Box, w: nat, shift: int): seq<Box>
    requires w >= 1
    decreases Measure(b), 1
  {
    var k := FirstLong(b, w);
    if k == |b| then [b] else SliceAll(b, k, Offsets(b[k].len, w, shift), w, shift)
  }

  /** The parts of the slices of axis k at the offsets `offs`, one slice after the other. */
  function SliceAll(b: Box, k: nat, offs: seq<int>, w: nat, shift: int): seq<Box>
    requires w >= 1 && k < |b| && b[k].len > w && OffsetsBelow(offs, b[k].len)
    decreases Measure(b), 0, |offs|
  {
    if offs == [] then []
    else
      MeasureUpdate(b, k, Span(b[k].start + offs[0], Min(w, b[k].len - offs[0])));
      Parts(Slice(b, k, offs[0], w), w, shift) + SliceAll(b, k, offs[1..], w, shift)
  }

  // ---------------------------------------------------------------------
  // Which windows are yielded

  /** Span `t` is where `partition` leaves axis `s`: unchanged when it is
      not longer than the block, else one of its slices. */
  predicate AxisPlaced(s: Span, t: Span, w: nat, shift: int)
    requires w >= 1
  {
    if s.len <= w then t == s
    else exists i :: i in Offsets(s.len, w, shift) && t == Span(s.start + i, Min(w, s.len - i))
  }

  /** Window `p` is one of the windows `partition` cuts `b` into. */
  predicate Placed(b: Box, p: Box, w: nat, shift: int)
    requires w >= 1
  {
    |p| == |b| && forall j :: 0 <= j < |b| ==> AxisPlaced(b[j], p[j], w, shift)
  }

  /** On the first long axis k, a window is placed in `b` exactly when it
      is placed in the slice at one of the offsets. */
  lemma PlacedBySlice(b: Box, k: nat, w: nat, shift: int, p: Box)
    requires w >= 1 && k < |b| && b[k].len > w
    ensures Placed(b, p, w, shift) <==>
      exists t :: 0 <= t < |Offsets(b[k].len, w, shift)| &&
        Placed(Slice(b, k, Offsets(b[k].len, w, shift)[t], w), p, w, shift)
  {
    var offs := Offsets(b[k].len, w, shift);
    if Placed(b, p, w, shift) {
      assert AxisPlaced(b[k], p[k], w, shift);
      var i :| i in offs && p[k] == Span(b[k].start + i, Min(w, b[k].len - i));
      var t :| 0 <= t < |offs| && offs[t] == i;
      SlicePlaced(b, k, i, w, shift, p);
    }
    if exists t :: 0 <= t < |offs| && Placed(Slice(b, k, offs[t], w), p, w, shift) {
      var t :| 0 <= t < |offs| && Placed(Slice(b, k, offs[t], w), p, w, shift);
      SlicePlaced(b, k, offs[t], w, shift, p);
    }
  }

  lemma SlicePlaced(b: Box, k: nat, i: int, w: nat, shift: int, p: Box)
    requires w >= 1 && k < |b| && b[k].len > w && i in Offsets(b[k].len, w, shift)
    ensures Placed(Slice(b, k, i, w), p, w, shift) <==>
      Placed(b, p, w, shift) && p[k] == Span(b[k].start + i, Min(w, b[k].len - i))
  {
    var s := Slice(b, k, i, w);
    if Placed(s, p, w, shift) {
      assert AxisPlaced(s[k], p[k], w, shift);
      forall j | 0 <= j < |b|
        ensures AxisPlaced(b[j], p[j], w, shift)
      {
        if j != k {
          assert AxisPlaced(s[j], p[j], w, shift);
        }
      }
    }
    if Placed(b, p, w, shift) && p[k] == Span(b[k].start + i, Min(w, b[k].len - i)) {
      forall j | 0 <= j < |b|
        ensures AxisPlaced(s[j], p[j], w, shift)
      {
        if j != k {
          assert AxisPlaced(b[j], p[j], w, shift);
        }
      }
    }
  }

  /** The yielded windows are exactly the placed ones: every axis longer than
      the block is sliced at every offset, independently of the others. */
  lemma {:induction false} PartsMembers(b: Box, w: nat, shift: int)
    requires w >= 1
    ensures forall p: Box :: p in Parts(b, w, shift) <==> Placed(b, p, w, shift)
    decreases Measure(b), 1
  {
    var k := FirstLong(b, w);
    if k == |b| {
      forall p: Box
        ensures Placed(b, p, w, shift) <==> p == b
      {
        if Placed(b, p, w, shift) {
          assert forall j :: 0 <= j < |b| ==> AxisPlaced(b[j], p[j], w, shift);
        }
      }
    } else {
      SliceAllMembers(b, k, Offsets(b[k].len, w, shift), w, shift);
      forall p: Box
        ensures p in Parts(b, w, shift) <==> Placed(b, p, w, shift)
      {
        PlacedBySlice(b, k, w, shift, p);
      }
    }
  }

  lemma {:induction false} SliceAllMembers(b: Box, k: nat, offs: seq<int>, w: nat, shift: int)
    requires w >= 1 && k < |b| && b[k].len > w && OffsetsBelow(offs, b[k].len)
    ensures forall p: Box :: p in SliceAll(b, k, offs, w, shift) <==>
      exists t :: 0 <= t < |offs| && Placed(Slice(b, k, offs[t], w), p, w, shift)
    decreases Measure(b), 0, |offs|
  {
    if offs != [] {
      var s := Slice(b, k, offs[0], w);
      MeasureUpdate(b, k, s[k]);
      PartsMembers(s, w, shift);
      SliceAllMembers(b, k, offs[1..], w, shift);
      forall p
        ensures p in SliceAll(b, k, offs, w, shift) <==>
          exists t :: 0 <= t < |offs| && Placed(Slice(b, k, offs[t], w), p, w, shift)
      {
        if p in SliceAll(b, k, offs[1..], w, shift) {
          var t :| 0 <= t < |offs[1..]| && Placed(Slice(b, k, offs[1..][t], w), p, w, shift);
          assert Placed(Slice(b, k, offs[t + 1], w), p, w, shift);
        }
        if exists t :: 0 <= t < |offs| && Placed(Slice(b, k, offs[t], w), p, w, shift) {
          var t :| 0 <= t < |offs| && Placed(Slice(b, k, offs[t], w), p, w, shift);
          if t > 0 {
            assert offs[1..][t - 1] == offs[t];
          }
        }
      }
    }
  }

  /** Window `p` lies inside `b`, is at most `w` long on every axis, and is
      not empty on an axis where `b` is not. */
  predicate Inside(p: Box, b: Box, w: nat) {
    Within(p, b) && forall j :: 0 <= j < |b| ==> p[j].len <= w && (b[j].len >= 1 ==> p[j].len >= 1)
  }

  /** Every yielded window lies inside `b`, is at most `w` long on every axis,
      and is not empty on an axis where `b` is not. */
  lemma PartsInside(b: Box, w: nat, shift: int)
    requires w >= 1
    ensures forall i :: 0 <= i < |Parts(b, w, shift)| ==> Inside(Parts(b, w, shift)[i], b, w)
  {
    PartsMembers(b, w, shift);
    forall i | 0 <= i < |Parts(b, w, shift)|
      ensures Inside(Parts(b, w, shift)[i], b, w)
    {
      var p := Parts(b, w, shift)[i];
      assert p in Parts(b, w, shift);
      forall j | 0 <= j < |b|
        ensures b[j].start <= p[j].start && p[j].start + p[j].len <= b[j].start + b[j].len
        ensures p[j].len <= w && (b[j].len >= 1 ==> p[j].len >= 1)
      {
        assert AxisPlaced(b[j], p[j], w, shift);
      }
    }
  }

  /** With a positive shift the window slides: on every axis longer than the
      block each yielded window is exactly `w` long and starts a multiple of
      `shift` after the axis start, at most `n - w` after it. */
  lemma SlidingWindows(b: Box, w: nat, shift: int)
    requires w >= 1 && shift > 0
    ensures forall p: Box, j: int :: p in Parts(b, w, shift) && 0 <= j < |b| && b[j].len > w ==>
      |p| == |b| && p[j].len == w && p[j].start - b[j].start <= b[j].len - w && (p[j].start - b[j].start) % shift == 0
  {
    PartsMembers(b, w, shift);
    forall p: Box, j: int | p in Parts(b, w, shift) && 0 <= j < |b| && b[j].len > w
      ensures |p| == |b| && p[j].len == w && p[j].start - b[j].start <= b[j].len - w && (p[j].start - b[j].start) % shift == 0
    {
      assert Placed(b, p, w, shift);
      AxisSliding(b[j], p[j], w, shift);
    }
  }

  lemma AxisSliding(s: Span, t: Span, w: nat, shift: int)
    requires w >= 1 && shift > 0 && s.len > w && AxisPlaced(s, t, w, shift)
    ensures t.len == w && t.start - s.start <= s.len - w && (t.start - s.start) % shift == 0
  {
    var i :| i in Offsets(s.len, w, shift) && t == Span(s.start + i, Min(w, s.len - i));
    RangeMembers(0, s.len - w + 1, shift, i);
  }

  /** Membership in a range, as Python defines it. */
  lemma {:induction false} RangeMembers(from: int, stop: int, stride: nat, o: int)
    requires stride >= 1
    ensures o in Range(from, stop, stride) <==> from <= o < stop && (o - from) % stride == 0
    decreases stop - from
  {
    if from < stop {
      RangeMembers(from + stride, stop, stride, o);
      ModStep(o - from, stride);
    }
  }

  lemma ModStep(a: int, s: nat)
    requires s >= 1
    ensures (a - s) % s == a % s
    ensures 0 <= a < s ==> a % s == a
  {
    DivModUnique(a - s, s, a / s - 1, a % s);
    if 0 <= a < s {
      DivModUnique(a, s, 0, a);
    }
  }

  /** Euclidean division is unique: a quotient and a remainder in [0, s) are a / s and a % s. */
  lemma DivModUnique(a: int, s: int, q: int, r: int)
    requires s >= 1 && 0 <= r < s && a == s * q + r
    ensures a / s == q && a % s == r
  {
    var q', r' := a / s, a % s;
    assert a == s * q' + r' && 0 <= r' < s;
    MulBounds(s, q - q');
    assert s * (q - q') == r' - r;
  }

  lemma MulBounds(s: int, d: int)
    requires s >= 1
    ensures d >= 1 ==> s * d >= s
    ensures d <= -1 ==> s * d <= -s
  {
  }

  // ---------------------------------------------------------------------
  // Non-overlapping windows tile the dataset

  /** How many offsets of `offs` start a block of width `w` over cell `c`. */
  function Hits(offs: seq<int>, c: int, w: nat): nat {
    if offs == [] then 0 else (if offs[0] <= c < offs[0] + w then 1 else 0) + Hits(offs[1..], c, w)
  }

  lemma {:induction false} RangeHits(from: int, stop: int, w: nat, c: int)
    requires w >= 1 && c < stop
    ensures Hits(Range(from, stop, w), c, w) == if from <= c then 1 else 0
    decreases stop - from
  {
    if from < stop {
      RangeHits(from + w, stop, w, c);
      assert Range(from, stop, w)[1..] == Range(from + w, stop, w);
    }
  }

  lemma SliceContains(b: Box, k: nat, i: int, w: nat, idx: seq<int>)
    requires k < |b| && 0 <= i < b[k].len
    ensures Contains(Slice(b, k, i, w), idx) <==>
      Contains(b, idx) && i <= idx[k] - b[k].start < i + w
  {
    var s := Slice(b, k, i, w);
    if Contains(s, idx) {
      forall j | 0 <= j < |b|
        ensures InSpan(b[j], idx[j])
      {
        assert InSpan(s[j], idx[j]);
      }
    }
    if Contains(b, idx) && i <= idx[k] - b[k].start < i + w {
      forall j | 0 <= j < |b|
        ensures InSpan(s[j], idx[j])
      {
        assert InSpan(b[j], idx[j]);
      }
    }
  }

  /** Without a positive shift the windows tile `b`: every index of `b` lies
      in exactly one of them, and no other index lies in any. */
  lemma {:induction false} PartsCover(b: Box, w: nat, shift: int, idx: seq<int>)
    requires w >= 1 && shift <= 0
    ensures Count(Parts(b, w, shift), idx) == if Contains(b, idx) then 1 else 0
    decreases Measure(b), 1
  {
    var k := FirstLong(b, w);
    if k == |b| {
      assert Parts(b, w, shift)[1..] == [];
    } else {
      SliceAllCover(b, k, Offsets(b[k].len, w, shift), w, shift, idx);
      if Contains(b, idx) {
        assert InSpan(b[k], idx[k]);
        RangeHits(0, b[k].len, w, idx[k] - b[k].start);
      }
    }
  }

  lemma {:induction false} SliceAllCover(b: Box, k: nat, offs: seq<int>, w: nat, shift: int, idx: seq<int>)
    requires w >= 1 && shift <= 0 && k < |b| && b[k].len > w && OffsetsBelow(offs, b[k].len)
    ensures Count(SliceAll(b, k, offs, w, shift), idx) ==
      if Contains(b, idx) then Hits(offs, idx[k] - b[k].start, w) else 0
    decreases Measure(b), 0, |offs|
  {
    if offs != [] {
      var s := Slice(b, k, offs[0], w);
      MeasureUpdate(b, k, s[k]);
      PartsCover(s, w, shift, idx);
      SliceAllCover(b, k, offs[1..], w, shift, idx);
      SliceContains(b, k, offs[0], w, idx);
      CountConcat(Parts(s, w, shift), SliceAll(b, k, offs[1..], w, shift), idx);
    }
  }

  // ---------------------------------------------------------------------
  // Order: the first long axis varies slowest

  /** Window `p` starts before window `q` in row-major order of their first corners. */
  predicate Before(p: Box, q: Box) {
    exists m :: 0 <= m < |p| && m < |q| && p[m].start < q[m].start &&
      forall j :: 0 <= j < m ==> p[j].start == q[j].start
  }

  predicate Ordered(ps: seq<Box>) {
    forall i, j :: 0 <= i < j < |ps| ==> Before(ps[i], ps[j])
  }

  lemma OrderedConcat(a: seq<Box>, b: seq<Box>)
    requires Ordered(a) && Ordered(b)
    requires forall p: Box, q: Box :: p in a && q in b ==> Before(p, q)
    ensures Ordered(a + b)
  {
    forall i, j | 0 <= i < j < |a + b|
      ensures Before((a + b)[i], (a + b)[j])
    {
      if j < |a| {
        assert Before(a[i], a[j]);
      } else if i >= |a| {
        assert Before(b[i - |a|], b[j - |a|]);
      } else {
        assert a[i] in a && b[j - |a|] in b;
      }
    }
  }

  /** A window yielded for a slice of the first long axis agrees with `b` on
      the axes before it and with the slice on it. */
  lemma PartOfSlice(b: Box, k: nat, i: int, w: nat, shift: int, p: Box)
    requires w >= 1 && k == FirstLong(b, w) && k < |b| && 0 <= i < b[k].len
    requires Placed(Slice(b, k, i, w), p, w, shift)
    ensures forall j :: 0 <= j < k ==> p[j] == b[j]
    ensures p[k].start == b[k].start + i
  {
    var s := Slice(b, k, i, w);
    forall j | 0 <= j <= k
      ensures p[j] == s[j]
    {
      assert AxisPlaced(s[j], p[j], w, shift);
    }
  }

  /** The windows come in row-major order of their first corners, strictly. */
  lemma {:induction false} PartsOrdered(b: Box, w: nat, shift: int)
    requires w >= 1
    ensures Ordered(Parts(b, w, shift))
    decreases Measure(b), 1
  {
    var k := FirstLong(b, w);
    if k < |b| {
      SliceAllOrdered(b, k, Offsets(b[k].len, w, shift), w, shift);
    }
  }

  lemma {:induction false} SliceAllOrdered(b: Box, k: nat, offs: seq<int>, w: nat, shift: int)
    requires w >= 1 && k == FirstLong(b, w) && k < |b| && b[k].len > w && OffsetsBelow(offs, b[k].len)
    requires forall i, j :: 0 <= i < j < |offs| ==> offs[i] < offs[j]
    ensures Ordered(SliceAll(b, k, offs, w, shift))
    decreases Measure(b), 0, |offs|
  {
    if offs != [] {
      var s := Slice(b, k, offs[0], w);
      MeasureUpdate(b, k, s[k]);
      var head := Parts(s, w, shift);
      var tail := SliceAll(b, k, offs[1..], w, shift);
      PartsOrdered(s, w, shift);
      SliceAllOrdered(b, k, offs[1..], w, shift);
      PartsMembers(s, w, shift);
      SliceAllMembers(b, k, offs[1..], w, shift);
      forall p: Box, q: Box | p in head && q in tail
        ensures Before(p, q)
      {
        PartOfSlice(b, k, offs[0], w, shift, p);
        var t :| 0 <= t < |offs[1..]| && Placed(Slice(b, k, offs[1..][t], w), q, w, shift);
        PartOfSlice(b, k, offs[1..][t], w, shift, q);
        assert offs[0] < offs[t + 1];
        assert p[k].start < q[k].start;
      }
      OrderedConcat(head, tail);
    }
  }

  // ---------------------------------------------------------------------
  // partition_ignore: only whole blocks

  /** The windows whose part has exactly the shape `shape`, in order. */
  function KeepShape(ps: seq<Box>, shape: seq<int>): (r: seq<Box>)
    ensures forall p: Box :: p in r <==> p in ps && Lens(p) == shape
    ensures |r| <= |ps|
  {
    if ps == [] then []
    else (if Lens(ps[0]) == shape then [ps[0]] else []) + KeepShape(ps[1..], shape)
  }

  lemma {:induction false} KeepConcat(a: seq<Box>, b: seq<Box>, shape: seq<int>)
    ensures KeepShape(a + b, shape) == KeepShape(a, shape) + KeepShape(b, shape)
  {
    if a == [] {
      assert a + b == b;
    } else {
      assert (a + b)[0] == a[0] && (a + b)[1..] == a[1..] + b;
      KeepConcat(a[1..], b, shape);
    }
  }

  lemma {:induction false} KeepCount(ps: seq<Box>, shape: seq<int>, idx: seq<int>)
    ensures Count(KeepShape(ps, shape), idx) <= Count(ps, idx)
  {
    if ps != [] {
      KeepCount(ps[1..], shape, idx);
      CountConcat(if Lens(ps[0]) == shape then [ps[0]] else [], KeepShape(ps[1..], shape), idx);
    }
  }

  lemma {:induction false} KeepOrdered(ps: seq<Box>, shape: seq<int>)
    requires Ordered(ps)
    ensures Ordered(KeepShape(ps, shape))
  {
    if ps != [] {
      assert Ordered(ps[1..]);
      KeepOrdered(ps[1..], shape);
      var head: seq<Box> := if Lens(ps[0]) == shape then [ps[0]] else [];
      forall p: Box, q: Box | p in head && q in KeepShape(ps[1..], shape)
        ensures Before(p, q)
      {
        var j :| 0 <= j < |ps[1..]| && ps[1..][j] == q;
        assert Before(ps[0], ps[j + 1]);
      }
      OrderedConcat(head, KeepShape(ps[1..], shape));
    }
  }

  /** The windows partition_ignore keeps: those of the whole shape w x ... x w. */
  function IgnoreParts(b: Box, w: nat): seq<Box>
    requires w >= 1
  {
    KeepShape(Parts(b, w, 0), Repeat(w, |b|))
  }

  /** partition_ignore keeps exactly the placed windows that are whole blocks,
      in row-major order, and no two of them overlap. */
  lemma IgnoreMembers(b: Box, w: nat, idx: seq<int>)
    requires w >= 1
    ensures forall p: Box :: p in IgnoreParts(b, w) <==> Placed(b, p, w, 0) && Lens(p) == Repeat(w, |b|)
    ensures Ordered(IgnoreParts(b, w))
    ensures Count(IgnoreParts(b, w), idx) <= if Contains(b, idx) then 1 else 0
  {
    PartsMembers(b, w, 0);
    PartsOrdered(b, w, 0);
    KeepOrdered(Parts(b, w, 0), Repeat(w, |b|));
    PartsCover(b, w, 0, idx);
    KeepCount(Parts(b, w, 0), Repeat(w, |b|), idx);
  }

  /** The number of whole blocks along each axis. */
  function Blocks(b: Box, w: nat): (r: seq<nat>)
    requires w >= 1
    ensures |r| == |b| && forall j :: 0 <= j < |b| ==> r[j] == b[j].len / w
  {
    seq(|b|, j requires 0 <= j < |b| => b[j].len / w)
  }

  lemma {:induction false} ProductOfBits(q: seq<nat>)
    requires forall j :: 0 <= j < |q| ==> q[j] <= 1
    ensures Product(q) == if forall j :: 0 <= j < |q| ==> q[j] == 1 then 1 else 0
  {
    if q != [] {
      ProductOfBits(q[1..]);
      if forall j :: 0 <= j < |q[1..]| ==> q[1..][j] == 1 {
        if q[0] == 1 {
          assert forall j :: 0 <= j < |q| ==> q[j] == 1 by {
            forall j | 0 <= j < |q|
              ensures q[j] == 1
            {
              if j > 0 {
                assert q[j] == q[1..][j - 1];
              }
            }
          }
        }
      } else {
        var j :| 0 <= j < |q[1..]| && q[1..][j] != 1;
        assert q[j + 1] != 1;
      }
    }
  }

  /** The product of a shape is its k-th dimension times the product of the others. */
  lemma {:induction false} ProductUpdate(q: seq<nat>, k: nat, v: nat)
    requires k < |q|
    ensures Product(q[k := v]) * q[k] == Product(q[k := 1]) * v * q[k]
    ensures Product(q) == q[k] * Product(q[k := 1])
  {
    if k == 0 {
      assert q[k := v][1..] == q[1..] && q[k := 1][1..] == q[1..];
    } else {
      assert q[k := v][1..] == q[1..][k - 1 := v] && q[k := 1][1..] == q[1..][k - 1 := 1];
      ProductUpdate(q[1..], k - 1, v);
      assert q[k := v][0] == q[0] && q[k := 1][0] == q[0];
      ProductShuffle(q[0], Product(q[1..][k - 1 := v]), Product(q[1..][k - 1 := 1]), v, q[k]);
      ProductShuffle2(q[0], Product(q[1..]), Product(q[1..][k - 1 := 1]), q[k]);
    }
  }

  lemma ProductShuffle(a: int, x: int, y: int, v: int, c: int)
    requires x * c == y * v * c
    ensures (a * x) * c == (a * y) * v * c
  {
    calc {
      (a * x) * c;
      a * (x * c);
      a * (y * v * c);
      (a * y) * v * c;
    }
  }

  lemma ProductShuffle2(a: int, x: int, y: int, c: int)
    requires x == c * y
    ensures a * x == c * (a * y)
  {
  }

  /** Counts the offsets at which a whole block of width `w` still fits before `n`. */
  function WholeAt(offs: seq<int>, n: int, w: nat): nat {
    if offs == [] then 0 else (if n - offs[0] >= w then 1 else 0) + WholeAt(offs[1..], n, w)
  }

  lemma {:induction false} WholeInRange(from: int, n: int, w: nat)
    requires w >= 1 && from >= 0
    ensures WholeAt(Range(from, n, w), n, w) == if from >= n then 0 else (n - from) / w
    decreases n - from
  {
    if from < n {
      WholeInRange(from + w, n, w);
      assert Range(from, n, w)[1..] == Range(from + w, n, w);
      DivStep(n - from, w);
    }
  }

  lemma DivStep(a: int, w: nat)
    requires w >= 1 && a >= 0
    ensures a >= w ==> a / w == (a - w) / w + 1
    ensures a < w ==> a / w == 0
  {
    if a >= w {
      DivModUnique(a, w, (a - w) / w + 1, (a - w) % w);
    } else {
      DivModUnique(a, w, 0, a);
    }
  }

  /** Without a positive shift there are exactly as many whole blocks as the
      product of how many fit along each axis: 4 for 5 x 5 and (2, 2). */
  lemma {:induction false} IgnoreCount(b: Box, w: nat)
    requires w >= 1
    ensures |IgnoreParts(b, w)| == Product(Blocks(b, w))
    decreases Measure(b), 1
  {
    var k := FirstLong(b, w);
    if k == |b| {
      IgnoreCountShort(b, w);
    } else {
      SliceAllCount(b, k, Offsets(b[k].len, w, 0), w);
      IgnoreCountLong(b, w, k);
    }
  }

  /** A window with no long axis is one block when it is whole, none otherwise. */
  lemma IgnoreCountShort(b: Box, w: nat)
    requires w >= 1 && FirstLong(b, w) == |b|
    ensures |IgnoreParts(b, w)| == Product(Blocks(b, w))
  {
    assert KeepShape(Parts(b, w, 0), Repeat(w, |b|)) == KeepShape([b], Repeat(w, |b|));
    ShortBlocks(b, w);
  }

  /** The blocks of a window with no long axis multiply to 1 when it is
      whole and to 0 otherwise. */
  lemma ShortBlocks(b: Box, w: nat)
    requires w >= 1 && forall j :: 0 <= j < |b| ==> b[j].len <= w
    ensures Product(Blocks(b, w)) == if Lens(b) == Repeat(w, |b|) then 1 else 0
  {
    var q := Blocks(b, w);
    forall j | 0 <= j < |b|
      ensures q[j] <= 1 && (q[j] == 1 <==> b[j].len == w)
    {
      DivStep(b[j].len, w);
    }
    ProductOfBits(q);
    if Lens(b) != Repeat(w, |b|) {
      var j :| 0 <= j < |b| && Lens(b)[j] != Repeat(w, |b|)[j];
      assert q[j] != 1;
    }
  }

  /** A window cut along its first long axis k: the whole slices times the
      blocks of the other axes. */
  lemma IgnoreCountLong(b: Box, w: nat, k: nat)
    requires w >= 1 && k == FirstLong(b, w) && k < |b|
    requires |KeepShape(SliceAll(b, k, Offsets(b[k].len, w, 0), w, 0), Repeat(w, |b|))| ==
      WholeAt(Offsets(b[k].len, w, 0), b[k].len, w) * Product(Blocks(b, w)[k := 1])
    ensures |IgnoreParts(b, w)| == Product(Blocks(b, w))
  {
    WholeInRange(0, b[k].len, w);
    ProductUpdate(Blocks(b, w), k, 1);
  }

  lemma {:induction false} SliceAllCount(b: Box, k: nat, offs: seq<int>, w: nat)
    requires w >= 1 && k < |b| && b[k].len > w && OffsetsBelow(offs, b[k].len)
    ensures |KeepShape(SliceAll(b, k, offs, w, 0), Repeat(w, |b|))| ==
      WholeAt(offs, b[k].len, w) * Product(Blocks(b, w)[k := 1])
    decreases Measure(b), 0, |offs|
  {
    if offs != [] {
      var s := Slice(b, k, offs[0], w);
      MeasureUpdate(b, k, s[k]);
      SliceWhole(b, k, offs[0], w);
      SliceAllCount(b, k, offs[1..], w);
      SliceAllStep(b, k, offs, w, Product(Blocks(b, w)[k := 1]));
    }
  }

  /** The count over the offsets is the count of the first slice plus the
      count over the others. */
  lemma SliceAllStep(b: Box, k: nat, offs: seq<int>, w: nat, P: int)
    requires w >= 1 && k < |b| && b[k].len > w && OffsetsBelow(offs, b[k].len) && offs != []
    requires |IgnoreParts(Slice(b, k, offs[0], w), w)| == (if b[k].len - offs[0] >= w then P else 0)
    requires |KeepShape(SliceAll(b, k, offs[1..], w, 0), Repeat(w, |b|))| == WholeAt(offs[1..], b[k].len, w) * P
    ensures |KeepShape(SliceAll(b, k, offs, w, 0), Repeat(w, |b|))| == WholeAt(offs, b[k].len, w) * P
  {
    var s := Slice(b, k, offs[0], w);
    var rest := SliceAll(b, k, offs[1..], w, 0);
    assert |s| == |b|;
    assert SliceAll(b, k, offs, w, 0) == Parts(s, w, 0) + rest;
    KeepConcat(Parts(s, w, 0), rest, Repeat(w, |b|));
    var h := if b[k].len - offs[0] >= w then 1 else 0;
    var n, t := WholeAt(offs[1..], b[k].len, w), WholeAt(offs, b[k].len, w);
    assert t == h + n;
    var x, y := |IgnoreParts(s, w)|, |KeepShape(rest, Repeat(w, |b|))|;
    assert |KeepShape(SliceAll(b, k, offs, w, 0), Repeat(w, |b|))| == x + y;
    CountStep(x, y, h, n, t, P);
  }

  /** Counting arithmetic: h whole slices of p blocks each, then n more. */
  lemma CountStep(x: int, y: int, h: int, n: int, t: int, p: int)
    requires x == (if h == 1 then p else 0) && (h == 0 || h == 1) && y == n * p && t == h + n
    ensures x + y == t * p
  {
    MulStep(n, p);
  }

  /** One slice of the first long axis holds the whole blocks of the other
      axes when it is itself whole, and none otherwise. */
  lemma {:induction false} SliceWhole(b: Box, k: nat, o: int, w: nat)
    requires w >= 1 && k < |b| && b[k].len > w && 0 <= o < b[k].len
    ensures |IgnoreParts(Slice(b, k, o, w), w)| ==
      (if b[k].len - o >= w then Product(Blocks(b, w)[k := 1]) else 0)
    decreases Measure(b), 0, 0
  {
    var s := Slice(b, k, o, w);
    MeasureUpdate(b, k, s[k]);
    IgnoreCount(s, w);
    var v := Min(w, b[k].len - o) / w;
    DivStep(Min(w, b[k].len - o), w);
    if b[k].len - o >= w {
      DivStep(0, w);
    }
    assert Blocks(s, w) == Blocks(b, w)[k := v];
    if b[k].len - o < w {
      ProductZero(Blocks(b, w)[k := v], k);
    }
  }

  lemma ProductZero(q: seq<nat>, k: nat)
    requires k < |q| && q[k] == 0
    ensures Product(q) == 0
  {
    if k > 0 {
      assert q[1..][k - 1] == 0;
      ProductZero(q[1..], k - 1);
    }
  }

  lemma MulStep(a: int, p: int)
    ensures (a + 1) * p == p + a * p
  {
  }

  // ---------------------------------------------------------------------
  // partition_shrink: leftovers re-partitioned with smaller squares

  /** The smallest dimension of a shape (Python's min of the part's shape). */
  function MinOf(q: seq<nat>): (m: nat)
    requires |q| >= 1
    ensures forall j :: 0 <= j < |q| ==> m <= q[j]
    ensures exists j :: 0 <= j < |q| && m == q[j]
  {
    if |q| == 1 then q[0]
    else
      var m := MinOf(q[1..]);
      assert forall j :: 1 <= j < |q| ==> q[j] == q[1..][j - 1];
      if q[0] <= m then q[0] else m
  }

  /** A shape within w x ... x w that is not w x ... x w has a dimension below `w`. */
  lemma ShapeBelow(q: seq<nat>, w: nat)
    requires |q| >= 1 && forall j :: 0 <= j < |q| ==> q[j] <= w
    requires q != Repeat(w, |q|)
    ensures MinOf(q) < w
  {
    var j :| 0 <= j < |q| && q[j] != Repeat(w, |q|)[j];
  }

  /** The windows partition_shrink yields for `b` and blocks of width `w`:
      whole blocks as they are, and each other part, when its smallest
      dimension `m` is at least `minWidth`, partitioned again with width `m`. */
  function Shrink(b: Box, w: nat, minWidth: nat): seq<Box>
    requires w >= 1 && minWidth >= 1 && |b| >= 1
    decreases w, 1
  {
    PartsInside(b, w, 0);
    ShrinkEach(Parts(b, w, 0), w, minWidth)
  }

  function ShrinkEach(ps: seq<Box>, w: nat, minWidth: nat): seq<Box>
    requires w >= 1 && minWidth >= 1
    requires forall i :: 0 <= i < |ps| ==> |ps[i]| >= 1 && forall j :: 0 <= j < |ps[i]| ==> ps[i][j].len <= w
    decreases w, 0, |ps|
  {
    if ps == [] then [] else ShrinkPart(ps[0], w, minWidth) + ShrinkEach(ps[1..], w, minWidth)
  }

  /** What partition_shrink yields for one part of width at most `w`. */
  function ShrinkPart(p: Box, w: nat, minWidth: nat): seq<Box>
    requires w >= 1 && minWidth >= 1
    requires |p| >= 1 && forall j :: 0 <= j < |p| ==> p[j].len <= w
    decreases w, 0, 0
  {
    if Lens(p) == Repeat(w, |p|) then [p]
    else
      ShapeBelow(Lens(p), w);
      var m := MinOf(Lens(p));
      if m >= minWidth then Shrink(p, m, minWidth) else []
  }

  /** A window whose axes are all equally long. */
  predicate Square(p: Box) {
    |p| >= 1 && forall j :: 0 <= j < |p| ==> p[j].len == p[0].len
  }

  lemma WithinTrans(p: Box, q: Box, b: Box)
    requires Within(p, q) && Within(q, b)
    ensures Within(p, b)
  {
  }

  /** Every window partition_shrink yields lies inside `b` and is square:
      either a whole block of width `w`, or of a width between `minWidth`
      and `w`. */
  lemma {:induction false} ShrinkShapes(b: Box, w: nat, minWidth: nat)
    requires w >= 1 && minWidth >= 1 && |b| >= 1
    ensures forall p: Box :: p in Shrink(b, w, minWidth) ==>
      Within(p, b) && Square(p) && (p[0].len == w || minWidth <= p[0].len < w)
    decreases w, 1
  {
    PartsInside(b, w, 0);
    ShrinkEachShapes(Parts(b, w, 0), w, minWidth, b);
  }

  lemma {:induction false} ShrinkEachShapes(ps: seq<Box>, w: nat, minWidth: nat, b: Box)
    requires w >= 1 && minWidth >= 1
    requires forall i :: 0 <= i < |ps| ==> |ps[i]| >= 1 && forall j :: 0 <= j < |ps[i]| ==> ps[i][j].len <= w
    requires forall i :: 0 <= i < |ps| ==> Within(ps[i], b)
    ensures forall p: Box :: p in ShrinkEach(ps, w, minWidth) ==>
      Within(p, b) && Square(p) && (p[0].len == w || minWidth <= p[0].len < w)
    decreases w, 0, |ps|
  {
    if ps != [] {
      var p := ps[0];
      ShrinkEachShapes(ps[1..], w, minWidth, b);
      if Lens(p) == Repeat(w, |p|) {
        assert forall j :: 0 <= j < |p| ==> p[j].len == Lens(p)[j];
      } else {
        ShapeBelow(Lens(p), w);
        var m := MinOf(Lens(p));
        if m >= minWidth {
          ShrinkShapes(p, m, minWidth);
          forall q: Box | q in Shrink(p, m, minWidth)
            ensures Within(q, b)
          {
            WithinTrans(q, p, b);
          }
        }
      }
    }
  }

  /** No two windows partition_shrink yields overlap, and none leaves `b`. */
  lemma {:induction false} ShrinkDisjoint(b: Box, w: nat, minWidth: nat, idx: seq<int>)
    requires w >= 1 && minWidth >= 1 && |b| >= 1
    ensures Count(Shrink(b, w, minWidth), idx) <= if Contains(b, idx) then 1 else 0
    decreases w, 1
  {
    PartsInside(b, w, 0);
    PartsCover(b, w, 0, idx);
    ShrinkEachDisjoint(Parts(b, w, 0), w, minWidth, idx);
  }

  lemma {:induction false} ShrinkEachDisjoint(ps: seq<Box>, w: nat, minWidth: nat, idx: seq<int>)
    requires w >= 1 && minWidth >= 1
    requires forall i :: 0 <= i < |ps| ==> |ps[i]| >= 1 && forall j :: 0 <= j < |ps[i]| ==> ps[i][j].len <= w
    ensures Count(ShrinkEach(ps, w, minWidth), idx) <= Count(ps, idx)
    decreases w, 0, |ps|
  {
    if ps != [] {
      var p := ps[0];
      ShrinkEachDisjoint(ps[1..], w, minWidth, idx);
      var head: seq<Box> :=
        if Lens(p) == Repeat(w, |p|) then [p]
        else (ShapeBelow(Lens(p), w); if MinOf(Lens(p)) >= minWidth then Shrink(p, MinOf(Lens(p)), minWidth) else []);
      CountConcat(head, ShrinkEach(ps[1..], w, minWidth), idx);
      if Lens(p) != Repeat(w, |p|) {
        ShapeBelow(Lens(p), w);
        if MinOf(Lens(p)) >= minWidth {
          ShrinkDisjoint(p, MinOf(Lens(p)), minWidth, idx);
        }
      }
    }
  }

  // ---------------------------------------------------------------------
  // Moving a window moves its parts: partitioning a part cut out of a
  // dataset is partitioning its window of the dataset

  /** The first long axis depends only on the shape. */
  lemma FirstLongLens(a: Box, b: Box, w: nat)
    requires Lens(a) == Lens(b)
    ensures FirstLong(a, w) == FirstLong(b, w)
  {
    assert forall j :: 0 <= j < |a| ==> a[j].len == Lens(a)[j] == Lens(b)[j] == b[j].len;
  }

  lemma SliceMoved(c: Box, d: Box, k: nat, i: int, w: nat)
    requires k < |c| && 0 <= i < c[k].len
    ensures Moved(c, d)[k].len == c[k].len
    ensures Slice(Moved(c, d), k, i, w) == Moved(Slice(c, k, i, w), d)
  {
    assert Lens(Moved(c, d))[k] == Lens(c)[k];
  }

  lemma {:induction false} PartsMoved(c: Box, d: Box, w: nat, shift: int)
    requires w >= 1
    ensures Parts(Moved(c, d), w, shift) == MovedAll(Parts(c, w, shift), d)
    decreases Measure(c), 1
  {
    var k := FirstLong(c, w);
    FirstLongLens(Moved(c, d), c, w);
    if k < |c| {
      assert Lens(Moved(c, d))[k] == Lens(c)[k];
      SliceAllMoved(c, d, k, Offsets(c[k].len, w, shift), w, shift);
    }
  }

  lemma {:induction false} SliceAllMoved(c: Box, d: Box, k: nat, offs: seq<int>, w: nat, shift: int)
    requires w >= 1 && k < |c| && c[k].len > w && OffsetsBelow(offs, c[k].len)
    ensures Moved(c, d)[k].len == c[k].len
    ensures SliceAll(Moved(c, d), k, offs, w, shift) == MovedAll(SliceAll(c, k, offs, w, shift), d)
    decreases Measure(c), 0, |offs|
  {
    assert Lens(Moved(c, d))[k] == Lens(c)[k];
    if offs != [] {
      var s := Slice(c, k, offs[0], w);
      MeasureUpdate(c, k, s[k]);
      SliceMoved(c, d, k, offs[0], w);
      PartsMoved(s, d, w, shift);
      SliceAllMoved(c, d, k, offs[1..], w, shift);
      MovedAllConcat(Parts(s, w, shift), SliceAll(c, k, offs[1..], w, shift), d);
    }
  }

  lemma {:induction false} ShrinkMoved(c: Box, d: Box, w: nat, minWidth: nat)
    requires w >= 1 && minWidth >= 1 && |c| >= 1
    ensures Shrink(Moved(c, d), w, minWidth) == MovedAll(Shrink(c, w, minWidth), d)
    decreases w, 1
  {
    PartsInside(c, w, 0);
    PartsInside(Moved(c, d), w, 0);
    PartsMoved(c, d, w, 0);
    ShrinkEachMoved(Parts(c, w, 0), d, w, minWidth);
  }

  lemma {:induction false} ShrinkEachMoved(ps: seq<Box>, d: Box, w: nat, minWidth: nat)
    requires w >= 1 && minWidth >= 1
    requires forall i :: 0 <= i < |ps| ==> |ps[i]| >= 1 && forall j :: 0 <= j < |ps[i]| ==> ps[i][j].len <= w
    ensures forall i :: 0 <= i < |MovedAll(ps, d)| ==>
      |MovedAll(ps, d)[i]| >= 1 && forall j :: 0 <= j < |MovedAll(ps, d)[i]| ==> MovedAll(ps, d)[i][j].len <= w
    ensures ShrinkEach(MovedAll(ps, d), w, minWidth) == MovedAll(ShrinkEach(ps, w, minWidth), d)
    decreases w, 0, |ps|
  {
    MovedAllNarrow(ps, d, w);
    if ps != [] {
      var p := ps[0];
      assert MovedAll(ps, d)[1..] == MovedAll(ps[1..], d);
      ShrinkEachMoved(ps[1..], d, w, minWidth);
      ShrinkPartMoved(p, d, w, minWidth);
      MovedAllConcat(ShrinkPart(p, w, minWidth), ShrinkEach(ps[1..], w, minWidth), d);
    }
  }

  /** Moving windows keeps their shapes, so they stay within the block width. */
  lemma MovedAllNarrow(ps: seq<Box>, d: Box, w: nat)
    requires forall i :: 0 <= i < |ps| ==> |ps[i]| >= 1 && forall j :: 0 <= j < |ps[i]| ==> ps[i][j].len <= w
    ensures forall i :: 0 <= i < |MovedAll(ps, d)| ==>
      |MovedAll(ps, d)[i]| >= 1 && forall j :: 0 <= j < |MovedAll(ps, d)[i]| ==> MovedAll(ps, d)[i][j].len <= w
  {
    forall i | 0 <= i < |ps|
      ensures |MovedAll(ps, d)[i]| >= 1 && forall j :: 0 <= j < |MovedAll(ps, d)[i]| ==> MovedAll(ps, d)[i][j].len <= w
    {
      assert forall j :: 0 <= j < |ps[i]| ==> Lens(Moved(ps[i], d))[j] == Lens(ps[i])[j];
    }
  }

  /** One part: shrinking the moved part is moving the shrunk part. */
  lemma ShrinkPartMoved(p: Box, d: Box, w: nat, minWidth: nat)
    requires w >= 1 && minWidth >= 1
    requires |p| >= 1 && forall j :: 0 <= j < |p| ==> p[j].len <= w
    ensures |Moved(p, d)| >= 1 && forall j :: 0 <= j < |Moved(p, d)| ==> Moved(p, d)[j].len <= w
    ensures ShrinkPart(Moved(p, d), w, minWidth) == MovedAll(ShrinkPart(p, w, minWidth), d)
    decreases w, 0, 0
  {
    assert forall j :: 0 <= j < |p| ==> Lens(Moved(p, d))[j] == Lens(p)[j];
    if Lens(p) != Repeat(w, |p|) {
      ShapeBelow(Lens(p), w);
      var m := MinOf(Lens(p));
      if m >= minWidth {
        ShrinkMoved(p, d, m, minWidth);
      }
    }
  }

  // ---------------------------------------------------------------------
  // The examples of the documentation, on windows

  /** A window whose axes are all at most `w` long is yielded whole. */
  lemma PartsSmall(b: Box, w: nat, shift: int)
    requires w >= 1 && forall j :: 0 <= j < |b| ==> b[j].len <= w
    ensures Parts(b, w, shift) == [b]
  {
  }

  /** A window with a long axis is cut along the first one. */
  lemma PartsLong(b: Box, w: nat, shift: int, k: nat)
    requires w >= 1 && k < |b| && b[k].len > w
    requires forall j :: 0 <= j < k ==> b[j].len <= w
    ensures Parts(b, w, shift) == SliceAll(b, k, Offsets(b[k].len, w, shift), w, shift)
  {
  }

  lemma SliceAllCons(b: Box, k: nat, o: int, offs: seq<int>, w: nat, shift: int)
    requires w >= 1 && k < |b| && b[k].len > w && 0 <= o < b[k].len && OffsetsBelow(offs, b[k].len)
    ensures OffsetsBelow([o] + offs, b[k].len)
    ensures SliceAll(b, k, [o] + offs, w, shift) == Parts(Slice(b, k, o, w), w, shift) + SliceAll(b, k, offs, w, shift)
  {
    assert ([o] + offs)[1..] == offs;
  }

  lemma OffsetsTwo(n: nat, w: nat)
    requires w >= 1 && w < n <= 2 * w
    ensures Offsets(n, w, 0) == [0, w]
  {
    assert Range(w, n, w) == [w] + Range(2 * w, n, w);
  }

  lemma OffsetsThree(n: nat, w: nat)
    requires w >= 1 && 2 * w < n <= 3 * w
    ensures Offsets(n, w, 0) == [0, w, 2 * w]
  {
    assert Range(2 * w, n, w) == [2 * w] + Range(3 * w, n, w);
    assert Range(w, n, w) == [w] + Range(2 * w, n, w);
  }

  /** Two blocks side by side along axis 1: one of width w and the rest. */
  lemma PartsOfRow(r: Span, a: nat, n: nat, w: nat)
    requires w >= 1 && r.len <= w && w < n <= 2 * w
    ensures Parts([r, Span(a, n)], w, 0) == [[r, Span(a, w)], [r, Span(a + w, n - w)]]
  {
    PartsTwoSlices([r, Span(a, n)], w, 1);
    RowSlice(r, a, n, w, 0, w);
    RowSlice(r, a, n, w, w, n - w);
    Singles([r, Span(a, w)], [r, Span(a + w, n - w)], [r, Span(a + w, n - w)]);
  }

  /** Two blocks one above the other along axis 0: one of width w and the rest. */
  lemma PartsOfColumn(c: Span, a: nat, n: nat, w: nat)
    requires w >= 1 && c.len <= w && w < n <= 2 * w
    ensures Parts([Span(a, n), c], w, 0) == [[Span(a, w), c], [Span(a + w, n - w), c]]
  {
    PartsTwoSlices([Span(a, n), c], w, 0);
    ColumnSlice(c, a, n, w, 0, w);
    ColumnSlice(c, a, n, w, w, n - w);
    Singles([Span(a, w), c], [Span(a + w, n - w), c], [Span(a + w, n - w), c]);
  }

  /** Three blocks side by side along axis 1, the last one short. */
  lemma PartsOfRow3(r: Span, a: nat, n: nat, w: nat)
    requires w >= 1 && r.len <= w && 2 * w < n <= 3 * w
    ensures Parts([r, Span(a, n)], w, 0) == [[r, Span(a, w)], [r, Span(a + w, w)], [r, Span(a + 2 * w, n - 2 * w)]]
  {
    PartsThreeSlices([r, Span(a, n)], w, 1);
    RowSlice(r, a, n, w, 0, w);
    RowSlice(r, a, n, w, w, w);
    RowSlice(r, a, n, w, 2 * w, n - 2 * w);
    Singles([r, Span(a, w)], [r, Span(a + w, w)], [r, Span(a + 2 * w, n - 2 * w)]);
  }

  lemma Singles<T>(x: T, y: T, z: T)
    ensures [x] + [y] == [x, y] && [x] + [y] + [z] == [x, y, z]
  {
  }

  /** The slice of a row of blocks at offset o is a single part. */
  lemma RowSlice(r: Span, a: nat, n: nat, w: nat, o: nat, l: nat)
    requires w >= 1 && r.len <= w && o < n && l == Min(w, n - o)
    ensures Parts(Slice([r, Span(a, n)], 1, o, w), w, 0) == [[r, Span(a + o, l)]]
  {
    assert Slice([r, Span(a, n)], 1, o, w) == [r, Span(a + o, l)];
    PartsSmall([r, Span(a + o, l)], w, 0);
  }

  /** The slice of a column of blocks at offset o is a single part. */
  lemma ColumnSlice(c: Span, a: nat, n: nat, w: nat, o: nat, l: nat)
    requires w >= 1 && c.len <= w && o < n && l == Min(w, n - o)
    ensures Parts(Slice([Span(a, n), c], 0, o, w), w, 0) == [[Span(a + o, l), c]]
  {
    assert Slice([Span(a, n), c], 0, o, w) == [Span(a + o, l), c];
    PartsSmall([Span(a + o, l), c], w, 0);
  }

  /** Parts of a window cut along its first long axis k into two slices. */
  lemma PartsTwoSlices(b: Box, w: nat, k: nat)
    requires w >= 1 && k < |b| && w < b[k].len <= 2 * w
    requires forall j :: 0 <= j < k ==> b[j].len <= w
    ensures Parts(b, w, 0) == Parts(Slice(b, k, 0, w), w, 0) + Parts(Slice(b, k, w, w), w, 0)
  {
    PartsLong(b, w, 0, k);
    OffsetsTwo(b[k].len, w);
    SliceAllCons(b, k, 0, [w], w, 0);
    SliceAllCons(b, k, w, [], w, 0);
  }

  /** Parts of a window cut along its first long axis k into three slices. */
  lemma PartsThreeSlices(b: Box, w: nat, k: nat)
    requires w >= 1 && k < |b| && 2 * w < b[k].len <= 3 * w
    requires forall j :: 0 <= j < k ==> b[j].len <= w
    ensures Parts(b, w, 0) ==
      Parts(Slice(b, k, 0, w), w, 0) + Parts(Slice(b, k, w, w), w, 0) + Parts(Slice(b, k, 2 * w, w), w, 0)
  {
    PartsLong(b, w, 0, k);
    OffsetsThree(b[k].len, w);
    SliceAllCons(b, k, 0, [w, 2 * w], w, 0);
    SliceAllCons(b, k, w, [2 * w], w, 0);
    SliceAllCons(b, k, 2 * w, [], w, 0);
  }

  /** The documented example: a 3 x 3 window (here with its corner at
      (a, c)) and blocks of width 2 give a 2 x 2, a 2 x 1, a 1 x 2 and a
      1 x 1 part, in that order. */
  lemma PartsExample(a: nat, c: nat)
    ensures Parts([Span(a, 3), Span(c, 3)], 2, 0) ==
      [[Span(a, 2), Span(c, 2)], [Span(a, 2), Span(c + 2, 1)], [Span(a + 2, 1), Span(c, 2)], [Span(a + 2, 1), Span(c + 2, 1)]]
  {
    var b := [Span(a, 3), Span(c, 3)];
    PartsTwoSlices(b, 2, 0);
    assert Slice(b, 0, 0, 2) == [Span(a, 2), Span(c, 3)];
    assert Slice(b, 0, 2, 2) == [Span(a + 2, 1), Span(c, 3)];
    PartsOfRow(Span(a, 2), c, 3, 2);
    PartsOfRow(Span(a + 2, 1), c, 3, 2);
  }

  /** The example of the tests: a 5 x 5 window keeps four whole 2 x 2 blocks. */
  lemma IgnoreExample(a: nat, c: nat)
    ensures IgnoreParts([Span(a, 5), Span(c, 5)], 2) ==
      [[Span(a, 2), Span(c, 2)], [Span(a, 2), Span(c + 2, 2)], [Span(a + 2, 2), Span(c, 2)], [Span(a + 2, 2), Span(c + 2, 2)]]
  {
    var b := [Span(a, 5), Span(c, 5)];
    PartsThreeSlices(b, 2, 0);
    assert Slice(b, 0, 0, 2) == [Span(a, 2), Span(c, 5)];
    assert Slice(b, 0, 2, 2) == [Span(a + 2, 2), Span(c, 5)];
    assert Slice(b, 0, 4, 2) == [Span(a + 4, 1), Span(c, 5)];
    PartsOfRow3(Span(a, 2), c, 5, 2);
    PartsOfRow3(Span(a + 2, 2), c, 5, 2);
    PartsOfRow3(Span(a + 4, 1), c, 5, 2);
    var whole: seq<nat> := Repeat(2, 2);
    assert whole == [2, 2];
    KeepRows(Span(a, 2), Span(a + 2, 2), Span(a + 4, 1), c, whole);
  }

  lemma KeepRows(r0: Span, r1: Span, r2: Span, c: nat, whole: seq<nat>)
    requires r0.len == 2 && r1.len == 2 && r2.len == 1 && whole == [2, 2]
    ensures KeepShape([[r0, Span(c, 2)], [r0, Span(c + 2, 2)], [r0, Span(c + 4, 1)]] +
                      [[r1, Span(c, 2)], [r1, Span(c + 2, 2)], [r1, Span(c + 4, 1)]] +
                      [[r2, Span(c, 2)], [r2, Span(c + 2, 2)], [r2, Span(c + 4, 1)]], whole) ==
      [[r0, Span(c, 2)], [r0, Span(c + 2, 2)], [r1, Span(c, 2)], [r1, Span(c + 2, 2)]]
  {
    KeepThree([[r0, Span(c, 2)], [r0, Span(c + 2, 2)], [r0, Span(c + 4, 1)]],
              [[r1, Span(c, 2)], [r1, Span(c + 2, 2)], [r1, Span(c + 4, 1)]],
              [[r2, Span(c, 2)], [r2, Span(c + 2, 2)], [r2, Span(c + 4, 1)]], whole);
    KeepRow(r0, c, whole);
    KeepRow(r1, c, whole);
    KeepNone(r2, c, whole);
    TwoPairs([r0, Span(c, 2)], [r0, Span(c + 2, 2)], [r1, Span(c, 2)], [r1, Span(c + 2, 2)]);
  }

  lemma TwoPairs<T>(a: T, b: T, c: T, d: T)
    ensures [a, b] + [c, d] + [] == [a, b, c, d]
  {
  }

  lemma KeepThree(u: seq<Box>, m: seq<Box>, z: seq<Box>, shape: seq<int>)
    ensures KeepShape(u + m + z, shape) == KeepShape(u, shape) + KeepShape(m, shape) + KeepShape(z, shape)
  {
    KeepConcat(u + m, z, shape);
    KeepConcat(u, m, shape);
  }

  lemma KeepRow(r: Span, c: nat, whole: seq<nat>)
    requires r.len == 2 && whole == [2, 2]
    ensures KeepShape([[r, Span(c, 2)], [r, Span(c + 2, 2)], [r, Span(c + 4, 1)]], whole) == [[r, Span(c, 2)], [r, Span(c + 2, 2)]]
  {
    var u := [[r, Span(c, 2)], [r, Span(c + 2, 2)], [r, Span(c + 4, 1)]];
    assert Lens(u[0]) == whole && Lens(u[1]) == whole && Lens(u[2]) == [2, 1];
    Tails(u[0], u[1], u[2]);
    assert KeepShape([u[2]], whole) == [];
    assert KeepShape([u[1], u[2]], whole) == [u[1]] + KeepShape([u[2]], whole);
    assert KeepShape(u, whole) == [u[0]] + KeepShape([u[1], u[2]], whole);
    Tails(u[0], u[1], u[1]);
  }

  lemma Tails<T>(a: T, b: T, c: T)
    ensures [a, b, c][1..] == [b, c] && [b, c][1..] == [c] && [c][1..] == []
    ensures [a] + ([b] + []) == [a, b]
  {
  }

  lemma KeepNone(r: Span, c: nat, whole: seq<nat>)
    requires r.len == 1 && whole == [2, 2]
    ensures KeepShape([[r, Span(c, 2)], [r, Span(c + 2, 2)], [r, Span(c + 4, 1)]], whole) == []
  {
    var u := [[r, Span(c, 2)], [r, Span(c + 2, 2)], [r, Span(c + 4, 1)]];
    assert Lens(u[0]) != whole && Lens(u[1]) != whole && Lens(u[2]) != whole by {
      assert Lens(u[0])[0] == Lens(u[1])[0] == Lens(u[2])[0] == 1;
    }
    Tails(u[0], u[1], u[2]);
    assert KeepShape([u[2]], whole) == [];
    assert KeepShape([u[1], u[2]], whole) == [];
  }

  /** The documented example of partition_shrink: a 5 x 5 window, blocks of
      width 3 and minimal width 2 give one 3 x 3 and three 2 x 2 windows. */
  lemma ShrinkExample(a: nat, c: nat)
    ensures Shrink([Span(a, 5), Span(c, 5)], 3, 2) ==
      [[Span(a, 3), Span(c, 3)], [Span(a, 2), Span(c + 3, 2)], [Span(a + 3, 2), Span(c, 2)], [Span(a + 3, 2), Span(c + 3, 2)]]
  {
    var b := [Span(a, 5), Span(c, 5)];
    PartsTwoSlices(b, 3, 0);
    assert Slice(b, 0, 0, 3) == [Span(a, 3), Span(c, 5)];
    assert Slice(b, 0, 3, 3) == [Span(a + 3, 2), Span(c, 5)];
    PartsOfRow(Span(a, 3), c, 5, 3);
    PartsOfRow(Span(a + 3, 2), c, 5, 3);
    var ps := Parts(b, 3, 0);
    assert ps == [[Span(a, 3), Span(c, 3)], [Span(a, 3), Span(c + 3, 2)], [Span(a + 3, 2), Span(c, 3)], [Span(a + 3, 2), Span(c + 3, 2)]];
    PartsInside(b, 3, 0);
    ShrinkEachExample(a, c);
    assert Shrink(b, 3, 2) == ShrinkEach(Parts(b, 3, 0), 3, 2);
  }

  lemma ShrinkEachExample(a: nat, c: nat)
    ensures ShrinkEach([[Span(a, 3), Span(c, 3)], [Span(a, 3), Span(c + 3, 2)], [Span(a + 3, 2), Span(c, 3)], [Span(a + 3, 2), Span(c + 3, 2)]], 3, 2) ==
      [[Span(a, 3), Span(c, 3)], [Span(a, 2), Span(c + 3, 2)], [Span(a + 3, 2), Span(c, 2)], [Span(a + 3, 2), Span(c + 3, 2)]]
  {
    var p0, q1, q2, p3 := [Span(a, 3), Span(c, 3)], [Span(a, 2), Span(c + 3, 2)], [Span(a + 3, 2), Span(c, 2)], [Span(a + 3, 2), Span(c + 3, 2)];
    ShrinkPartWhole(p0, 3, 2);
    ShrinkPartExample1(a, c + 3);
    ShrinkPartExample2(a + 3, c);
    ShrinkPartExample3(a + 3, c + 3);
    ShrinkEachFour(p0, [Span(a, 3), Span(c + 3, 2)], [Span(a + 3, 2), Span(c, 3)], p3, 3, 2, p0, q1, q2, p3);
  }

  /** ShrinkEach of four windows that each shrink to one window. */
  lemma ShrinkEachFour(p0: Box, p1: Box, p2: Box, p3: Box, w: nat, minWidth: nat, q0: Box, q1: Box, q2: Box, q3: Box)
    requires w >= 1 && minWidth >= 1
    requires |p0| >= 1 && forall j :: 0 <= j < |p0| ==> p0[j].len <= w
    requires |p1| >= 1 && forall j :: 0 <= j < |p1| ==> p1[j].len <= w
    requires |p2| >= 1 && forall j :: 0 <= j < |p2| ==> p2[j].len <= w
    requires |p3| >= 1 && forall j :: 0 <= j < |p3| ==> p3[j].len <= w
    requires ShrinkPart(p0, w, minWidth) == [q0] && ShrinkPart(p1, w, minWidth) == [q1]
    requires ShrinkPart(p2, w, minWidth) == [q2] && ShrinkPart(p3, w, minWidth) == [q3]
    ensures ShrinkEach([p0, p1, p2, p3], w, minWidth) == [q0, q1, q2, q3]
  {
    Displays(p0, p1, p2, p3);
    Displays(q0, q1, q2, q3);
    ShrinkEachOne(p3, [], w, minWidth, q3, []);
    ShrinkEachOne(p2, [p3], w, minWidth, q2, [q3]);
    ShrinkEachOne(p1, [p2, p3], w, minWidth, q1, [q2, q3]);
    ShrinkEachOne(p0, [p1, p2, p3], w, minWidth, q0, [q1, q2, q3]);
  }

  /** A display is its first element in front of the rest. */
  lemma Displays<T>(a: T, b: T, c: T, d: T)
    ensures [d] + [] == [d] && [c] + [d] == [c, d]
    ensures [b] + [c, d] == [b, c, d] && [a] + [b, c, d] == [a, b, c, d]
  {
  }

  /** A window shrinking to one window, in front of windows shrinking to qs. */
  lemma ShrinkEachOne(p: Box, ps: seq<Box>, w: nat, minWidth: nat, q: Box, qs: seq<Box>)
    requires w >= 1 && minWidth >= 1
    requires |p| >= 1 && forall j :: 0 <= j < |p| ==> p[j].len <= w
    requires forall i :: 0 <= i < |ps| ==> |ps[i]| >= 1 && forall j :: 0 <= j < |ps[i]| ==> ps[i][j].len <= w
    requires ShrinkPart(p, w, minWidth) == [q] && ShrinkEach(ps, w, minWidth) == qs
    ensures forall i :: 0 <= i < |[p] + ps| ==> |([p] + ps)[i]| >= 1 && forall j :: 0 <= j < |([p] + ps)[i]| ==> ([p] + ps)[i][j].len <= w
    ensures ShrinkEach([p] + ps, w, minWidth) == [q] + qs
  {
    ShrinkEachCons(p, ps, w, minWidth);
  }

  /** ShrinkEach goes part by part. */
  lemma ShrinkEachCons(p: Box, ps: seq<Box>, w: nat, minWidth: nat)
    requires w >= 1 && minWidth >= 1
    requires |p| >= 1 && forall j :: 0 <= j < |p| ==> p[j].len <= w
    requires forall i :: 0 <= i < |ps| ==> |ps[i]| >= 1 && forall j :: 0 <= j < |ps[i]| ==> ps[i][j].len <= w
    ensures ShrinkEach([p] + ps, w, minWidth) == ShrinkPart(p, w, minWidth) + ShrinkEach(ps, w, minWidth)
  {
    assert ([p] + ps)[1..] == ps;
  }

  /** A part that is not a whole block, and whose smallest side m is at
      least minWidth, is shrunk with width m. */
  lemma ShrinkPartSmaller(p: Box, j: nat, w: nat, m: nat, minWidth: nat)
    requires w >= 1 && minWidth >= 1
    requires |p| >= 1 && forall j :: 0 <= j < |p| ==> p[j].len <= w
    requires j < |p| && p[j].len < w
    requires m == MinOf(Lens(p)) && m >= minWidth
    ensures ShrinkPart(p, w, minWidth) == Shrink(p, m, minWidth)
  {
    assert Lens(p)[j] != Repeat(w, |p|)[j];
  }

  /** A part whose smallest side is below minWidth is dropped. */
  lemma ShrinkPartDropped(p: Box, j: nat, w: nat, minWidth: nat)
    requires w >= 1 && minWidth >= 1
    requires |p| >= 1 && forall j :: 0 <= j < |p| ==> p[j].len <= w
    requires j < |p| && p[j].len < minWidth && p[j].len < w
    ensures ShrinkPart(p, w, minWidth) == []
  {
    assert Lens(p)[j] != Repeat(w, |p|)[j];
  }

  /** A whole block is kept as it is. */
  lemma ShrinkPartWhole(p: Box, w: nat, minWidth: nat)
    requires w >= 1 && minWidth >= 1
    requires |p| >= 1 && forall j :: 0 <= j < |p| ==> p[j].len == w
    ensures ShrinkPart(p, w, minWidth) == [p]
  {
    assert Lens(p) == Repeat(w, |p|);
  }

  lemma ShrinkPartExample1(a: nat, c: nat)
    ensures ShrinkPart([Span(a, 3), Span(c, 2)], 3, 2) == [[Span(a, 2), Span(c, 2)]]
  {
    var p := [Span(a, 3), Span(c, 2)];
    assert Lens(p) == [3, 2];
    ShrinkPartSmaller(p, 1, 3, 2, 2);
    ShrinkColumnExample(a, c);
  }

  lemma ShrinkColumnExample(a: nat, c: nat)
    ensures Shrink([Span(a, 3), Span(c, 2)], 2, 2) == [[Span(a, 2), Span(c, 2)]]
  {
    PartsOfColumn(Span(c, 2), a, 3, 2);
    ShrinkEachPair([Span(a, 2), Span(c, 2)], [Span(a + 2, 1), Span(c, 2)], 2, 2);
    ShrinkPartWhole([Span(a, 2), Span(c, 2)], 2, 2);
    ShrinkPartDropped([Span(a + 2, 1), Span(c, 2)], 0, 2, 2);
  }

  lemma ShrinkPartExample2(a: nat, c: nat)
    ensures ShrinkPart([Span(a, 2), Span(c, 3)], 3, 2) == [[Span(a, 2), Span(c, 2)]]
  {
    var p := [Span(a, 2), Span(c, 3)];
    assert Lens(p) == [2, 3];
    ShrinkPartSmaller(p, 0, 3, 2, 2);
    ShrinkRowExample(a, c);
  }

  lemma ShrinkRowExample(a: nat, c: nat)
    ensures Shrink([Span(a, 2), Span(c, 3)], 2, 2) == [[Span(a, 2), Span(c, 2)]]
  {
    PartsOfRow(Span(a, 2), c, 3, 2);
    ShrinkEachPair([Span(a, 2), Span(c, 2)], [Span(a, 2), Span(c + 2, 1)], 2, 2);
    ShrinkPartWhole([Span(a, 2), Span(c, 2)], 2, 2);
    ShrinkPartDropped([Span(a, 2), Span(c + 2, 1)], 1, 2, 2);
  }

  /** ShrinkEach of two windows. */
  lemma ShrinkEachPair(p: Box, q: Box, w: nat, minWidth: nat)
    requires w >= 1 && minWidth >= 1
    requires |p| >= 1 && forall j :: 0 <= j < |p| ==> p[j].len <= w
    requires |q| >= 1 && forall j :: 0 <= j < |q| ==> q[j].len <= w
    ensures ShrinkEach([p, q], w, minWidth) == ShrinkPart(p, w, minWidth) + ShrinkPart(q, w, minWidth)
  {
    ShrinkEachCons(p, [q], w, minWidth);
    ShrinkEachCons(q, [], w, minWidth);
  }

  lemma ShrinkPartExample3(a: nat, c: nat)
    ensures ShrinkPart([Span(a, 2), Span(c, 2)], 3, 2) == [[Span(a, 2), Span(c, 2)]]
  {
    var p := [Span(a, 2), Span(c, 2)];
    assert Lens(p) == [2, 2];
    ShrinkPartSmaller(p, 0, 3, 2, 2);
    PartsSmall(p, 2, 0);
    ShrinkEachCons(p, [], 2, 2);
    ShrinkPartWhole(p, 2, 2);
  }
}
