/** Parts of a dataset as windows: one span of indices per axis, and the
    numpy slicing that cuts such a window out of an array. */
module Windows {
  import opened Arrays

  /** The indices start, start + 1, ..., start + len - 1 of one axis. */
  datatype Span = Span(start: nat, len: nat)

  /** A window has one span per axis. */
  type Box = seq<Span>

  predicate InSpan(s: Span, c: int) {
    s.start <= c < s.start + s.len
  }

  /** The window holds the index tuple `idx`. */
  predicate Contains(b: Box, idx: seq<int>) {
    |idx| == |b| && forall j :: 0 <= j < |b| ==> InSpan(b[j], idx[j])
  }

  /** Window `p` lies inside window `b`. */
  predicate Within(p: Box, b: Box) {
    |p| == |b| &&
    forall j :: 0 <= j < |b| ==> b[j].start <= p[j].start && p[j].start + p[j].len <= b[j].start + b[j].len
  }

  /** How many windows of `ps` hold the index tuple `idx`. */
  function Count(ps: seq<Box>, idx: seq<int>): nat {
    if ps == [] then 0 else (if Contains(ps[0], idx) then 1 else 0) + Count(ps[1..], idx)
  }

  lemma {:induction false} CountConcat(a: seq<Box>, b: seq<Box>, idx: seq<int>)
    ensures Count(a + b, idx) == Count(a, idx) + Count(b, idx)
  {
    if a == [] {
      assert a + b == b;
    } else {
      assert (a + b)[0] == a[0] && (a + b)[1..] == a[1..] + b;
      CountConcat(a[1..], b, idx);
    }
  }

  /** The shape of the part a window cuts out. */
  function Lens(b: Box): (r: seq<nat>)
    ensures |r| == |b| && forall j :: 0 <= j < |b| ==> r[j] == b[j].len
  {
    seq(|b|, j requires 0 <= j < |b| => b[j].len)
  }

  /** Total extent of a window, summed over its axes; slicing a long axis
      lowers it, which bounds the recursion of the partition. */
  function Measure(b: Box): nat {
    if b == [] then 0 else b[0].len + Measure(b[1..])
  }

  lemma {:induction false} MeasureUpdate(b: Box, k: nat, s: Span)
    requires k < |b|
    ensures Measure(b[k := s]) == Measure(b) - b[k].len + s.len
  {
    if k == 0 {
      assert b[k := s][1..] == b[1..];
    } else {
      assert b[k := s][1..] == b[1..][k - 1 := s];
      MeasureUpdate(b[1..], k - 1, s);
    }
  }

  /** The window of the whole array. */
  function FullBox(x: Array): (b: Box)
    requires WellFormed(x)
    ensures Lens(b) == Shape(x)
  {
    seq(NDim(x), j requires 0 <= j < NDim(x) => Span(0, Shape(x)[j]))
  }

  /** The cell of `x` at the index tuple `idx`. */
  function At(x: Array, idx: seq<int>): int
    requires WellFormed(x) && Contains(FullBox(x), idx)
  {
    if x.Vec? then x.cells[idx[0]] else x.rows[idx[0]][idx[1]]
  }

  /** An index tuple relative to a window, made absolute. */
  function Shifted(idx: seq<int>, b: Box): (r: seq<int>)
    requires |idx| == |b|
    ensures |r| == |b| && forall j :: 0 <= j < |b| ==> r[j] == idx[j] + b[j].start
  {
    seq(|b|, j requires 0 <= j < |b| => idx[j] + b[j].start)
  }

  /** x[idx] for a tuple of slices: the part of `x` under the window `b`,
      of the window's shape (its cells are those of ExtractCells). */
  function Extract(x: Array, b: Box): (r: Array)
    requires WellFormed(x) && Within(b, FullBox(x))
    requires x.Mat? ==> b[0].len >= 1
    ensures WellFormed(r) && NDim(r) == NDim(x) && Shape(r) == Lens(b)
  {
    if x.Vec? then Vec(x.cells[b[0].start .. b[0].start + b[0].len])
    else Mat(seq(b[0].len, i requires 0 <= i < b[0].len => x.rows[b[0].start + i][b[1].start .. b[1].start + b[1].len]))
  }

  /** The cell of a part at `idx` is the cell of `x` at `idx` shifted by the
      window's start. */
  lemma ExtractCells(x: Array, b: Box, idx: seq<int>)
    requires WellFormed(x) && Within(b, FullBox(x))
    requires x.Mat? ==> b[0].len >= 1
    requires Contains(FullBox(Extract(x, b)), idx)
    ensures Contains(FullBox(x), Shifted(idx, b))
    ensures At(Extract(x, b), idx) == At(x, Shifted(idx, b))
  {
    var r := Extract(x, b);
    assert forall j :: 0 <= j < |b| ==> FullBox(r)[j] == Span(0, b[j].len);
    assert forall j :: 0 <= j < |b| ==> FullBox(x)[j] == Span(0, Shape(x)[j]);
  }

  /** The whole window cuts out the array itself. */
  lemma ExtractFull(x: Array)
    requires WellFormed(x)
    ensures Extract(x, FullBox(x)) == x
  {
    if x.Vec? {
      assert x.cells[0 .. |x.cells|] == x.cells;
    } else {
      var r := Extract(x, FullBox(x));
      assert |r.rows| == |x.rows|;
      forall i | 0 <= i < |x.rows|
        ensures r.rows[i] == x.rows[i]
      {
        assert x.rows[i][0 .. |x.rows[0]|] == x.rows[i];
      }
    }
  }

  /** Every window that lies inside the array and is not empty on the row axis. */
  predicate Cuttable(x: Array, b: Box)
    requires WellFormed(x)
  {
    Within(b, FullBox(x)) && (x.Mat? ==> b[0].len >= 1)
  }

  /** The parts under a sequence of windows, in the same order. */
  function Cut(x: Array, boxes: seq<Box>): (parts: seq<Array>)
    requires WellFormed(x) && forall i :: 0 <= i < |boxes| ==> Cuttable(x, boxes[i])
    ensures |parts| == |boxes|
    ensures forall i :: 0 <= i < |boxes| ==> WellFormed(parts[i]) && Shape(parts[i]) == Lens(boxes[i])
  {
    seq(|boxes|, i requires 0 <= i < |boxes| && Cuttable(x, boxes[i]) => Extract(x, boxes[i]))
  }

  lemma {:induction false} CutConcat(x: Array, a: seq<Box>, b: seq<Box>)
    requires WellFormed(x)
    requires forall i :: 0 <= i < |a| ==> Cuttable(x, a[i])
    requires forall i :: 0 <= i < |b| ==> Cuttable(x, b[i])
    ensures forall i :: 0 <= i < |a + b| ==> Cuttable(x, (a + b)[i])
    ensures Cut(x, a + b) == Cut(x, a) + Cut(x, b)
  {
    assert forall i :: 0 <= i < |a + b| ==> Cuttable(x, (a + b)[i]) by {
      forall i | 0 <= i < |a + b|
        ensures Cuttable(x, (a + b)[i])
      {
        if i >= |a| {
          assert (a + b)[i] == b[i - |a|];
        }
      }
    }
  }

  /** Window `q`, given relative to the corner of window `d`, made absolute. */
  function Moved(q: Box, d: Box): (r: Box)
    ensures |r| == |q| && Lens(r) == Lens(q)
  {
    seq(|q|, j requires 0 <= j < |q| => Span(q[j].start + (if j < |d| then d[j].start else 0), q[j].len))
  }

  function MovedAll(ps: seq<Box>, d: Box): (r: seq<Box>)
    ensures |r| == |ps| && forall i :: 0 <= i < |ps| ==> r[i] == Moved(ps[i], d)
  {
    seq(|ps|, i requires 0 <= i < |ps| => Moved(ps[i], d))
  }

  lemma MovedAllConcat(a: seq<Box>, b: seq<Box>, d: Box)
    ensures MovedAll(a + b, d) == MovedAll(a, d) + MovedAll(b, d)
  {
  }

  /** Two windows of the same shape have the same extent. */
  lemma {:induction false} MeasureLens(a: Box, b: Box)
    requires Lens(a) == Lens(b)
    ensures Measure(a) == Measure(b)
  {
    if a != [] {
      assert Lens(a[1..]) == Lens(b[1..]) by {
        assert forall j :: 0 <= j < |a| - 1 ==> Lens(a[1..])[j] == Lens(a)[j + 1];
        assert forall j :: 0 <= j < |b| - 1 ==> Lens(b[1..])[j] == Lens(b)[j + 1];
      }
      assert Lens(a)[0] == Lens(b)[0];
      MeasureLens(a[1..], b[1..]);
    }
  }

  /** The whole window of a part, moved to the part's corner, is the part's window. */
  lemma FullBoxMoved(x: Array, p: Box)
    requires WellFormed(x) && Cuttable(x, p)
    ensures Moved(FullBox(Extract(x, p)), p) == p
  {
    var e := Extract(x, p);
    assert forall j :: 0 <= j < |p| ==> FullBox(e)[j] == Span(0, p[j].len);
  }

  /** A window inside a part, moved to the part's corner, lies inside `x`. */
  lemma MovedCuttable(x: Array, p: Box, q: Box)
    requires WellFormed(x) && Cuttable(x, p)
    requires Cuttable(Extract(x, p), q)
    ensures Cuttable(x, Moved(q, p))
  {
    var e := Extract(x, p);
    assert forall j :: 0 <= j < |q| ==> FullBox(e)[j] == Span(0, p[j].len);
    assert forall j :: 0 <= j < |q| ==> FullBox(x)[j] == Span(0, Shape(x)[j]);
  }

  lemma ExtractExtractRow(x: Array, p: Box, q: Box, i: nat)
    requires WellFormed(x) && x.Mat? && Cuttable(x, p)
    requires Cuttable(Extract(x, p), q) && Cuttable(x, Moved(q, p))
    requires i < q[0].len
    ensures Extract(Extract(x, p), q).rows[i] == Extract(x, Moved(q, p)).rows[i]
  {
    var e := Extract(x, p);
    var m := Moved(q, p);
    assert FullBox(e)[0] == Span(0, p[0].len) && FullBox(e)[1] == Span(0, p[1].len);
    assert Extract(e, q).rows[i] == e.rows[q[0].start + i][q[1].start .. q[1].start + q[1].len];
    var row := x.rows[p[0].start + q[0].start + i];
    assert e.rows[q[0].start + i] == row[p[1].start .. p[1].start + p[1].len];
    assert FullBox(x)[1] == Span(0, |row|);
    assert m[1] == Span(p[1].start + q[1].start, q[1].len);
    assert q[1].start + q[1].len <= p[1].len && p[1].start + p[1].len <= |row|;
    SliceOfSlice(row, p[1].start, p[1].len, q[1].start, q[1].len);
  }

  lemma SliceOfSlice(row: seq<int>, a: nat, la: nat, c: nat, lc: nat)
    requires a + la <= |row| && c + lc <= la
    ensures row[a .. a + la][c .. c + lc] == row[a + c .. a + c + lc]
  {
    var l, r := row[a .. a + la][c .. c + lc], row[a + c .. a + c + lc];
    assert |l| == lc == |r|;
    forall k | 0 <= k < lc
      ensures l[k] == r[k]
    {
      assert l[k] == row[a .. a + la][c + k] == row[a + c + k];
    }
  }

  /** Slicing a part of `x` is slicing `x` at the moved window. */
  lemma ExtractExtract(x: Array, p: Box, q: Box)
    requires WellFormed(x) && Cuttable(x, p)
    requires Cuttable(Extract(x, p), q)
    ensures Cuttable(x, Moved(q, p))
    ensures Extract(Extract(x, p), q) == Extract(x, Moved(q, p))
  {
    MovedCuttable(x, p, q);
    var e := Extract(x, p);
    var m := Moved(q, p);
    if x.Vec? {
      assert FullBox(e)[0] == Span(0, p[0].len) && FullBox(x)[0] == Span(0, |x.cells|);
      assert m[0] == Span(p[0].start + q[0].start, q[0].len);
      SliceOfSlice(x.cells, p[0].start, p[0].len, q[0].start, q[0].len);
    } else {
      var l := Extract(e, q);
      var r := Extract(x, m);
      assert |l.rows| == |r.rows|;
      forall i | 0 <= i < |l.rows|
        ensures l.rows[i] == r.rows[i]
      {
        ExtractExtractRow(x, p, q, i);
      }
    }
  }
}
