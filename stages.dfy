/** The three stages of the Block Decomposition Method on datasets: the
    partition family (split), lookup in a reference table (apply) and
    aggregation (combine). */
module Stages {
  import opened Outcomes
  import opened Arrays
  import opened Text
  import opened Windows
  import opened Partitioning
  import Encoding

  // ---------------------------------------------------------------------
  // partition

  /** A part shape with the same width on every axis (a one-element set of widths). */
  predicate Symmetric(shape: seq<int>) {
    |shape| >= 1 && forall a :: 0 <= a < |shape| ==> shape[a] == shape[0]
  }

  /** The dataset partition works on: `x` itself when its dimensionality is
      that of the part shape, else `x` squeezed, when that then matches. */
  function Conformed(x: Array, shape: seq<int>): (r: Option<Array>)
    requires WellFormed(x)
    ensures r.Some? ==> WellFormed(r.value) && NDim(r.value) == |shape| && Ravel(r.value) == Ravel(x)
    ensures NDim(x) == |shape| <==> r == Some(x)
    ensures r.Some? && r.value != x ==> forall a :: 0 <= a < |shape| ==> Shape(r.value)[a] != 1
    ensures NDim(x) != |shape| ==>
      (r.Some? <==> Squeeze(x).Some? && NDim(Squeeze(x).value) == |shape|) && (r.Some? ==> r == Squeeze(x))
  {
    if |shape| == NDim(x) then Some(x)
    else match Squeeze(x)
      case None => None
      case Some(y) => if NDim(y) == |shape| then Some(y) else None
  }

  /** The slice of axis k at offset i is a window of `x` numpy can cut out. */
  lemma SliceCuttable(x: Array, k: nat, i: int, w: nat)
    requires WellFormed(x) && w >= 1 && k < NDim(x) && 0 <= i < FullBox(x)[k].len
    ensures Cuttable(x, Slice(FullBox(x), k, i, w))
  {
    var b := FullBox(x);
    assert forall j :: 0 <= j < |b| ==> b[j] == Span(0, Shape(x)[j]);
  }

  lemma FullCuttable(x: Array)
    requires WellFormed(x)
    ensures Cuttable(x, FullBox(x))
  {
    assert forall j :: 0 <= j < NDim(x) ==> FullBox(x)[j] == Span(0, Shape(x)[j]);
  }

  /** The recursion of partition after its checks, on arrays as the source
      runs it: the array itself when no axis is longer than the block width
      `w`, else the parts of x[..., i:i + w, ...] for each offset i of the
      first long axis. */
  function PartArray(x: Array, w: nat, shift: int): seq<Array>
    requires WellFormed(x) && w >= 1
    decreases Measure(FullBox(x)), 1
  {
    var b := FullBox(x);
    var k := FirstLong(b, w);
    if k == |b| then [x] else SliceArrays(x, k, Offsets(b[k].len, w, shift), w, shift)
  }

  function SliceArrays(x: Array, k: nat, offs: seq<int>, w: nat, shift: int): seq<Array>
    requires WellFormed(x) && w >= 1 && k < NDim(x) && FullBox(x)[k].len > w
    requires OffsetsBelow(offs, FullBox(x)[k].len)
    decreases Measure(FullBox(x)), 0, |offs|
  {
    if offs == [] then []
    else
      var s := Slice(FullBox(x), k, offs[0], w);
      SliceCuttable(x, k, offs[0], w);
      MeasureUpdate(FullBox(x), k, s[k]);
      MeasureLens(FullBox(Extract(x, s)), s);
      PartArray(Extract(x, s), w, shift) + SliceArrays(x, k, offs[1..], w, shift)
  }

  /** Cutting windows out of a part is cutting the moved windows out of `x`. */
  lemma CutMoved(x: Array, s: Box, qs: seq<Box>)
    requires WellFormed(x) && Cuttable(x, s)
    requires forall i :: 0 <= i < |qs| ==> Cuttable(Extract(x, s), qs[i])
    ensures forall i :: 0 <= i < |qs| ==> Cuttable(x, MovedAll(qs, s)[i])
    ensures Cut(Extract(x, s), qs) == Cut(x, MovedAll(qs, s))
  {
    forall i | 0 <= i < |qs|
      ensures Cuttable(x, MovedAll(qs, s)[i])
      ensures Extract(Extract(x, s), qs[i]) == Extract(x, MovedAll(qs, s)[i])
    {
      ExtractExtract(x, s, qs[i]);
    }
  }

  lemma PartsCuttable(x: Array, b: Box, w: nat, shift: int)
    requires WellFormed(x) && w >= 1 && Cuttable(x, b)
    ensures forall i :: 0 <= i < |Parts(b, w, shift)| ==> Cuttable(x, Parts(b, w, shift)[i])
  {
    PartsInside(b, w, shift);
    forall i | 0 <= i < |Parts(b, w, shift)|
      ensures Cuttable(x, Parts(b, w, shift)[i])
    {
      var p := Parts(b, w, shift)[i];
      assert Inside(p, b, w);
      WithinTrans(p, b, FullBox(x));
      if x.Mat? {
        assert FullBox(x)[0].len >= 1;
      }
    }
  }

  /** The source's recursion on sub-arrays cuts out exactly the windows of
      the window model, in the same order. */
  lemma {:induction false} PartArrayWindows(x: Array, w: nat, shift: int)
    requires WellFormed(x) && w >= 1
    ensures forall i :: 0 <= i < |Parts(FullBox(x), w, shift)| ==> Cuttable(x, Parts(FullBox(x), w, shift)[i])
    ensures PartArray(x, w, shift) == Cut(x, Parts(FullBox(x), w, shift))
    decreases Measure(FullBox(x)), 1
  {
    var b := FullBox(x);
    FullCuttable(x);
    PartsCuttable(x, b, w, shift);
    var k := FirstLong(b, w);
    if k == |b| {
      ExtractFull(x);
    } else {
      SliceArraysWindows(x, k, Offsets(b[k].len, w, shift), w, shift);
    }
  }

  lemma {:induction false} SliceArraysWindows(x: Array, k: nat, offs: seq<int>, w: nat, shift: int)
    requires WellFormed(x) && w >= 1 && k < NDim(x) && FullBox(x)[k].len > w
    requires OffsetsBelow(offs, FullBox(x)[k].len)
    ensures forall i :: 0 <= i < |SliceAll(FullBox(x), k, offs, w, shift)| ==>
      Cuttable(x, SliceAll(FullBox(x), k, offs, w, shift)[i])
    ensures SliceArrays(x, k, offs, w, shift) == Cut(x, SliceAll(FullBox(x), k, offs, w, shift))
    decreases Measure(FullBox(x)), 0, |offs|
  {
    if offs != [] {
      var b := FullBox(x);
      var s := Slice(b, k, offs[0], w);
      SliceCuttable(x, k, offs[0], w);
      MeasureUpdate(b, k, s[k]);
      var e := Extract(x, s);
      MeasureLens(FullBox(e), s);
      PartArrayWindows(e, w, shift);
      CutMoved(x, s, Parts(FullBox(e), w, shift));
      PartsMoved(FullBox(e), s, w, shift);
      FullBoxMoved(x, s);
      PartsCuttable(x, s, w, shift);
      SliceArraysWindows(x, k, offs[1..], w, shift);
      CutConcat(x, Parts(s, w, shift), SliceAll(b, k, offs[1..], w, shift));
    }
  }

  /** partition(x, shape, shift), all its parts at once. */
  function Partition(x: Array, shape: seq<int>, shift: int): (r: Result<seq<Array>>)
    requires WellFormed(x)
    requires Symmetric(shape) ==> shape[0] >= 1
    ensures r.Ok? <==> Symmetric(shape) && Conformed(x, shape).Some?
    ensures !Symmetric(shape) ==> r == Err(AsymmetricShape(shape))
    ensures Symmetric(shape) && r.Err? ==> r.error == NotConformable
    ensures r.Ok? ==> forall i :: 0 <= i < |r.value| ==>
      WellFormed(r.value[i]) && NDim(r.value[i]) == |shape| &&
      forall a :: 0 <= a < |shape| ==> 1 <= Shape(r.value[i])[a] <= shape[0] || Shape(Conformed(x, shape).value)[a] == 0
  {
    if !Symmetric(shape) then Err(AsymmetricShape(shape))
    else match Conformed(x, shape)
      case None => Err(NotConformable)
      case Some(y) =>
        PartArrayBounded(y, shape[0], shift);
        Ok(PartArray(y, shape[0], shift))
  }

  /** The parts of partition are the dataset cut at the windows of the window
      model, so every lemma of module Partitioning speaks about them. */
  lemma PartitionWindows(x: Array, shape: seq<int>, shift: int)
    requires WellFormed(x) && Symmetric(shape) && shape[0] >= 1 && Conformed(x, shape).Some?
    ensures var y := Conformed(x, shape).value;
      (forall i :: 0 <= i < |Parts(FullBox(y), shape[0], shift)| ==> Cuttable(y, Parts(FullBox(y), shape[0], shift)[i])) &&
      Partition(x, shape, shift) == Ok(Cut(y, Parts(FullBox(y), shape[0], shift)))
  {
    PartArrayWindows(Conformed(x, shape).value, shape[0], shift);
  }

  /** A dataset no longer than the block on any axis is yielded whole, once. */
  lemma PartitionSmall(x: Array, shape: seq<int>, shift: int)
    requires WellFormed(x) && Symmetric(shape) && shape[0] >= 1 && Conformed(x, shape).Some?
    requires forall a :: 0 <= a < |shape| ==> Shape(Conformed(x, shape).value)[a] <= shape[0]
    ensures Partition(x, shape, shift) == Ok([Conformed(x, shape).value])
  {
    var y := Conformed(x, shape).value;
    assert FirstLong(FullBox(y), shape[0]) == |FullBox(y)| by {
      assert forall j :: 0 <= j < |FullBox(y)| ==> FullBox(y)[j].len == Shape(y)[j];
    }
  }

  // ---------------------------------------------------------------------
  // partition_ignore

  /** The parts whose shape is exactly `shape`, in order. */
  function KeepParts(parts: seq<Array>, shape: seq<int>): (r: seq<Array>)
    requires forall i :: 0 <= i < |parts| ==> WellFormed(parts[i])
    ensures forall i :: 0 <= i < |r| ==> WellFormed(r[i]) && Shape(r[i]) == shape
    ensures forall p :: p in r <==> p in parts && WellFormed(p) && Shape(p) == shape
  {
    if parts == [] then []
    else (if Shape(parts[0]) == shape then [parts[0]] else []) + KeepParts(parts[1..], shape)
  }

  /** partition_ignore(x, shape): the parts of partition(x, shape) of the
      whole shape, in order; the errors are those of partition. */
  function PartitionIgnore(x: Array, shape: seq<int>): (r: Result<seq<Array>>)
    requires WellFormed(x)
    requires Symmetric(shape) ==> shape[0] >= 1
    ensures r.Err? <==> Partition(x, shape, 0).Err?
    ensures r.Err? ==> r.error == Partition(x, shape, 0).error
    ensures r.Ok? ==> forall i :: 0 <= i < |r.value| ==> WellFormed(r.value[i]) && Shape(r.value[i]) == shape
  {
    match Partition(x, shape, 0)
    case Err(e) => Err(e)
    case Ok(parts) => Ok(KeepParts(parts, shape))
  }

  lemma KeepCuttable(x: Array, boxes: seq<Box>, shape: seq<int>)
    requires WellFormed(x) && forall i :: 0 <= i < |boxes| ==> Cuttable(x, boxes[i])
    ensures forall i :: 0 <= i < |KeepShape(boxes, shape)| ==> Cuttable(x, KeepShape(boxes, shape)[i])
  {
    forall i | 0 <= i < |KeepShape(boxes, shape)|
      ensures Cuttable(x, KeepShape(boxes, shape)[i])
    {
      assert KeepShape(boxes, shape)[i] in boxes;
    }
  }

  /** Keeping the parts of a shape is keeping the windows of that shape. */
  lemma {:induction false} KeepCut(x: Array, boxes: seq<Box>, shape: seq<int>)
    requires WellFormed(x) && forall i :: 0 <= i < |boxes| ==> Cuttable(x, boxes[i])
    ensures forall i :: 0 <= i < |KeepShape(boxes, shape)| ==> Cuttable(x, KeepShape(boxes, shape)[i])
    ensures KeepParts(Cut(x, boxes), shape) == Cut(x, KeepShape(boxes, shape))
  {
    KeepCuttable(x, boxes, shape);
    if boxes != [] {
      var rest := boxes[1..];
      KeepCut(x, rest, shape);
      var k := KeepShape(rest, shape);
      KeepCutSplit(x, boxes);
      if Lens(boxes[0]) == shape {
        KeepCutHead(x, boxes[0], k);
      }
    }
  }

  /** Cutting a non-empty list of windows: the first part, then the rest. */
  lemma KeepCutSplit(x: Array, boxes: seq<Box>)
    requires WellFormed(x) && boxes != [] && forall i :: 0 <= i < |boxes| ==> Cuttable(x, boxes[i])
    ensures Cut(x, boxes)[0] == Extract(x, boxes[0]) && Shape(Extract(x, boxes[0])) == Lens(boxes[0])
    ensures Cut(x, boxes)[1..] == Cut(x, boxes[1..])
  {
  }

  /** A kept window in front of the kept rest cuts to its part in front. */
  lemma KeepCutHead(x: Array, b: Box, k: seq<Box>)
    requires WellFormed(x) && Cuttable(x, b) && forall i :: 0 <= i < |k| ==> Cuttable(x, k[i])
    ensures forall i :: 0 <= i < |[b] + k| ==> Cuttable(x, ([b] + k)[i])
    ensures Cut(x, [b] + k) == [Extract(x, b)] + Cut(x, k)
  {
    CutConcat(x, [b], k);
    assert Cut(x, [b]) == [Extract(x, b)];
  }

  /** The parts of partition_ignore are the dataset cut at the whole-block
      windows of the window model. */
  lemma PartitionIgnoreWindows(x: Array, shape: seq<int>)
    requires WellFormed(x) && Symmetric(shape) && shape[0] >= 1 && Conformed(x, shape).Some?
    ensures var y := Conformed(x, shape).value;
      (forall i :: 0 <= i < |IgnoreParts(FullBox(y), shape[0])| ==> Cuttable(y, IgnoreParts(FullBox(y), shape[0])[i])) &&
      PartitionIgnore(x, shape) == Ok(Cut(y, IgnoreParts(FullBox(y), shape[0])))
  {
    var y := Conformed(x, shape).value;
    var w := shape[0];
    var ps := Parts(FullBox(y), w, 0);
    PartitionWindows(x, shape, 0);
    SymmetricWhole(shape, FullBox(y));
    KeepCut(y, ps, shape);
  }

  /** A symmetric shape of as many axes as `b` is the whole block shape. */
  lemma SymmetricWhole(shape: seq<int>, b: Box)
    requires Symmetric(shape) && shape[0] >= 1 && |b| == |shape|
    ensures IgnoreParts(b, shape[0]) == KeepShape(Parts(b, shape[0], 0), shape)
  {
    SymmetricRepeat(shape);
  }

  lemma SymmetricRepeat(shape: seq<int>)
    requires Symmetric(shape) && shape[0] >= 1
    ensures shape == Repeat<nat>(shape[0], |shape|)
  {
  }

  /** partition_ignore yields as many parts as whole blocks fit along each
      axis, multiplied together. */
  lemma PartitionIgnoreCount(x: Array, shape: seq<int>)
    requires WellFormed(x) && Symmetric(shape) && shape[0] >= 1 && Conformed(x, shape).Some?
    ensures PartitionIgnore(x, shape).Ok?
    ensures |PartitionIgnore(x, shape).value| == Product(Blocks(FullBox(Conformed(x, shape).value), shape[0]))
  {
    PartitionIgnoreWindows(x, shape);
    IgnoreCount(FullBox(Conformed(x, shape).value), shape[0]);
  }

  // ---------------------------------------------------------------------
  // partition_shrink

  lemma PartArrayBounded(x: Array, w: nat, shift: int)
    requires WellFormed(x) && w >= 1
    ensures forall i :: 0 <= i < |PartArray(x, w, shift)| ==>
      WellFormed(PartArray(x, w, shift)[i]) && NDim(PartArray(x, w, shift)[i]) == NDim(x) &&
      forall a :: 0 <= a < NDim(x) ==>
        Shape(PartArray(x, w, shift)[i])[a] <= w && (1 <= Shape(PartArray(x, w, shift)[i])[a] || Shape(x)[a] == 0)
  {
    PartArrayWindows(x, w, shift);
    PartsInside(FullBox(x), w, shift);
  }

  /** The recursion of partition_shrink after the checks of partition, on
      arrays as the source runs it: whole blocks as they are; any other part,
      when its smallest dimension m is at least `minWidth`, shrunk again with
      blocks of width m. */
  function ShrinkArray(x: Array, w: nat, minWidth: nat): seq<Array>
    requires WellFormed(x) && w >= 1 && minWidth >= 1
    decreases w, 1
  {
    PartArrayBounded(x, w, 0);
    ShrinkArrays(PartArray(x, w, 0), w, minWidth)
  }

  function ShrinkArrays(parts: seq<Array>, w: nat, minWidth: nat): seq<Array>
    requires w >= 1 && minWidth >= 1
    requires forall i :: 0 <= i < |parts| ==>
      WellFormed(parts[i]) && forall a :: 0 <= a < NDim(parts[i]) ==> Shape(parts[i])[a] <= w
    decreases w, 0, |parts|
  {
    if parts == [] then [] else ShrinkArrayPart(parts[0], w, minWidth) + ShrinkArrays(parts[1..], w, minWidth)
  }

  function ShrinkArrayPart(p: Array, w: nat, minWidth: nat): seq<Array>
    requires w >= 1 && minWidth >= 1
    requires WellFormed(p) && forall a :: 0 <= a < NDim(p) ==> Shape(p)[a] <= w
    decreases w, 0, 0
  {
    if Shape(p) == Repeat(w, NDim(p)) then [p]
    else
      ShapeBelow(Shape(p), w);
      var m := MinOf(Shape(p));
      if m >= minWidth then ShrinkArray(p, m, minWidth) else []
  }

  /** The windows of the shrink model are cut-able out of `x`. */
  lemma ShrinkCuttable(x: Array, b: Box, w: nat, minWidth: nat)
    requires WellFormed(x) && Cuttable(x, b) && w >= 1 && minWidth >= 1
    ensures forall i :: 0 <= i < |Shrink(b, w, minWidth)| ==> Cuttable(x, Shrink(b, w, minWidth)[i])
  {
    ShrinkShapes(b, w, minWidth);
    forall i | 0 <= i < |Shrink(b, w, minWidth)|
      ensures Cuttable(x, Shrink(b, w, minWidth)[i])
    {
      var q := Shrink(b, w, minWidth)[i];
      assert q in Shrink(b, w, minWidth);
      WithinTrans(q, b, FullBox(x));
    }
  }

  /** The source's recursion on sub-arrays cuts out exactly the windows of
      the shrink model, in the same order. */
  lemma {:induction false} ShrinkArrayWindows(x: Array, w: nat, minWidth: nat)
    requires WellFormed(x) && w >= 1 && minWidth >= 1
    ensures forall i :: 0 <= i < |Shrink(FullBox(x), w, minWidth)| ==> Cuttable(x, Shrink(FullBox(x), w, minWidth)[i])
    ensures ShrinkArray(x, w, minWidth) == Cut(x, Shrink(FullBox(x), w, minWidth))
    decreases w, 1
  {
    var b := FullBox(x);
    FullCuttable(x);
    ShrinkCuttable(x, b, w, minWidth);
    PartArrayWindows(x, w, 0);
    PartsCuttable(x, b, w, 0);
    PartsInside(b, w, 0);
    ShrinkArraysWindows(x, Parts(b, w, 0), w, minWidth);
  }

  lemma {:induction false} ShrinkArraysWindows(x: Array, ps: seq<Box>, w: nat, minWidth: nat)
    requires WellFormed(x) && w >= 1 && minWidth >= 1
    requires forall i :: 0 <= i < |ps| ==> Cuttable(x, ps[i]) && |ps[i]| >= 1 && forall j :: 0 <= j < |ps[i]| ==> ps[i][j].len <= w
    ensures forall i :: 0 <= i < |Cut(x, ps)| ==>
      WellFormed(Cut(x, ps)[i]) && forall a :: 0 <= a < NDim(Cut(x, ps)[i]) ==> Shape(Cut(x, ps)[i])[a] <= w
    ensures forall i :: 0 <= i < |ShrinkEach(ps, w, minWidth)| ==> Cuttable(x, ShrinkEach(ps, w, minWidth)[i])
    ensures ShrinkArrays(Cut(x, ps), w, minWidth) == Cut(x, ShrinkEach(ps, w, minWidth))
    decreases w, 0, |ps|
  {
    if ps != [] {
      ShrinkArraysWindows(x, ps[1..], w, minWidth);
      ShrinkPartArrayWindows(x, ps[0], w, minWidth);
      ShrinkArraysCons(x, ps, w, minWidth);
      ShrinkEachCuttable(x, ps, w, minWidth);
      CutConcat(x, ShrinkPart(ps[0], w, minWidth), ShrinkEach(ps[1..], w, minWidth));
    }
  }

  /** The source's step over the parts cut at `ps`: the first part, then the others. */
  lemma ShrinkArraysCons(x: Array, ps: seq<Box>, w: nat, minWidth: nat)
    requires WellFormed(x) && w >= 1 && minWidth >= 1 && ps != []
    requires forall i :: 0 <= i < |ps| ==> Cuttable(x, ps[i]) && forall j :: 0 <= j < |ps[i]| ==> ps[i][j].len <= w
    ensures forall i :: 0 <= i < |Cut(x, ps)| ==>
      WellFormed(Cut(x, ps)[i]) && forall a :: 0 <= a < NDim(Cut(x, ps)[i]) ==> Shape(Cut(x, ps)[i])[a] <= w
    ensures ShrinkArrays(Cut(x, ps), w, minWidth) ==
      ShrinkArrayPart(Cut(x, ps)[0], w, minWidth) + ShrinkArrays(Cut(x, ps[1..]), w, minWidth)
    ensures Cut(x, ps)[0] == Extract(x, ps[0])
  {
    CutBounded(x, ps, w);
    var c := Cut(x, ps);
    assert c[1..] == Cut(x, ps[1..]);
  }

  /** One part: the source's step on the sub-array cuts `x` at the windows
      of the model's step on the part's window. */
  lemma {:induction false} ShrinkPartArrayWindows(x: Array, p: Box, w: nat, minWidth: nat)
    requires WellFormed(x) && w >= 1 && minWidth >= 1
    requires Cuttable(x, p) && |p| >= 1 && forall j :: 0 <= j < |p| ==> p[j].len <= w
    ensures forall a :: 0 <= a < NDim(Extract(x, p)) ==> Shape(Extract(x, p))[a] <= w
    ensures forall i :: 0 <= i < |ShrinkPart(p, w, minWidth)| ==> Cuttable(x, ShrinkPart(p, w, minWidth)[i])
    ensures ShrinkArrayPart(Extract(x, p), w, minWidth) == Cut(x, ShrinkPart(p, w, minWidth))
    decreases w, 0, 0
  {
    var e := Extract(x, p);
    assert Shape(e) == Lens(p);
    if Lens(p) == Repeat(w, |p|) {
      assert Cut(x, [p]) == [e];
    } else {
      ShapeBelow(Lens(p), w);
      var m := MinOf(Lens(p));
      if m >= minWidth {
        ShrinkPartWindows(x, p, m, minWidth);
      }
    }
  }

  /** Shrinking a part of `x` with width m cuts `x` at the shrink windows of
      the part's own window. */
  lemma {:induction false} ShrinkPartWindows(x: Array, p: Box, m: nat, minWidth: nat)
    requires WellFormed(x) && Cuttable(x, p) && m >= 1 && minWidth >= 1
    ensures forall i :: 0 <= i < |Shrink(p, m, minWidth)| ==> Cuttable(x, Shrink(p, m, minWidth)[i])
    ensures ShrinkArray(Extract(x, p), m, minWidth) == Cut(x, Shrink(p, m, minWidth))
    decreases m, 2
  {
    var e := Extract(x, p);
    ShrinkCuttable(x, p, m, minWidth);
    ShrinkArrayWindows(e, m, minWidth);
    CutMoved(x, p, Shrink(FullBox(e), m, minWidth));
    ShrinkMoved(FullBox(e), p, m, minWidth);
    FullBoxMoved(x, p);
  }

  lemma CutBounded(x: Array, ps: seq<Box>, w: nat)
    requires WellFormed(x)
    requires forall i :: 0 <= i < |ps| ==> Cuttable(x, ps[i]) && forall j :: 0 <= j < |ps[i]| ==> ps[i][j].len <= w
    ensures forall i :: 0 <= i < |Cut(x, ps)| ==>
      WellFormed(Cut(x, ps)[i]) && forall a :: 0 <= a < NDim(Cut(x, ps)[i]) ==> Shape(Cut(x, ps)[i])[a] <= w
  {
  }

  lemma ShrinkEachCuttable(x: Array, ps: seq<Box>, w: nat, minWidth: nat)
    requires WellFormed(x) && w >= 1 && minWidth >= 1
    requires forall i :: 0 <= i < |ps| ==> Cuttable(x, ps[i]) && |ps[i]| >= 1 && forall j :: 0 <= j < |ps[i]| ==> ps[i][j].len <= w
    ensures forall i :: 0 <= i < |ShrinkEach(ps, w, minWidth)| ==> Cuttable(x, ShrinkEach(ps, w, minWidth)[i])
  {
    ShrinkEachShapes(ps, w, minWidth, FullBox(x));
    forall i | 0 <= i < |ShrinkEach(ps, w, minWidth)|
      ensures Cuttable(x, ShrinkEach(ps, w, minWidth)[i])
    {
      assert ShrinkEach(ps, w, minWidth)[i] in ShrinkEach(ps, w, minWidth);
    }
  }

  /** partition_shrink(x, shape, min_width), all its parts at once; the
      errors are those of partition. */
  function PartitionShrink(x: Array, shape: seq<int>, minWidth: nat): (r: Result<seq<Array>>)
    requires WellFormed(x) && minWidth >= 1
    requires Symmetric(shape) ==> shape[0] >= 1
    ensures r.Err? <==> Partition(x, shape, 0).Err?
    ensures r.Err? ==> r.error == Partition(x, shape, 0).error
    ensures r.Ok? ==> forall i :: 0 <= i < |r.value| ==>
      var part := r.value[i];
      WellFormed(part) && NDim(part) == |shape| &&
      Shape(part) == Repeat(Shape(part)[0], |shape|) &&
      (Shape(part)[0] == shape[0] || minWidth <= Shape(part)[0] < shape[0])
  {
    if !Symmetric(shape) then Err(AsymmetricShape(shape))
    else match Conformed(x, shape)
      case None => Err(NotConformable)
      case Some(y) =>
        ShrinkArrayWindows(y, shape[0], minWidth);
        ShrinkShapesCut(y, shape[0], minWidth);
        Ok(ShrinkArray(y, shape[0], minWidth))
  }

  lemma ShrinkShapesCut(y: Array, w: nat, minWidth: nat)
    requires WellFormed(y) && w >= 1 && minWidth >= 1
    ensures forall i :: 0 <= i < |ShrinkArray(y, w, minWidth)| ==>
      var part := ShrinkArray(y, w, minWidth)[i];
      WellFormed(part) && NDim(part) == NDim(y) &&
      Shape(part) == Repeat(Shape(part)[0], NDim(y)) &&
      (Shape(part)[0] == w || minWidth <= Shape(part)[0] < w)
  {
    ShrinkArrayWindows(y, w, minWidth);
    ShrinkShapes(FullBox(y), w, minWidth);
    forall i | 0 <= i < |ShrinkArray(y, w, minWidth)|
      ensures var part := ShrinkArray(y, w, minWidth)[i];
        WellFormed(part) && NDim(part) == NDim(y) &&
        Shape(part) == Repeat(Shape(part)[0], NDim(y)) &&
        (Shape(part)[0] == w || minWidth <= Shape(part)[0] < w)
    {
      var q := Shrink(FullBox(y), w, minWidth)[i];
      assert q in Shrink(FullBox(y), w, minWidth);
      assert Square(q);
    }
  }

  /** The parts of partition_shrink are the dataset cut at the windows of the
      shrink model: square, inside the dataset and pairwise disjoint. */
  lemma PartitionShrinkWindows(x: Array, shape: seq<int>, minWidth: nat)
    requires WellFormed(x) && minWidth >= 1 && Symmetric(shape) && shape[0] >= 1 && Conformed(x, shape).Some?
    ensures var y := Conformed(x, shape).value;
      (forall i :: 0 <= i < |Shrink(FullBox(y), shape[0], minWidth)| ==> Cuttable(y, Shrink(FullBox(y), shape[0], minWidth)[i])) &&
      PartitionShrink(x, shape, minWidth) == Ok(Cut(y, Shrink(FullBox(y), shape[0], minWidth)))
  {
    ShrinkArrayWindows(Conformed(x, shape).value, shape[0], minWidth);
  }

  // ---------------------------------------------------------------------
  // The examples of the documentation and the tests, on constant matrices

  /** Any window of a constant matrix is a constant matrix of the window's shape. */
  lemma ExtractFilled(rows: nat, cols: nat, v: int, b: Box)
    requires rows >= 1 && Cuttable(Filled(rows, cols, v), b)
    ensures Extract(Filled(rows, cols, v), b) == Filled(b[0].len, b[1].len, v)
  {
    var x := Filled(rows, cols, v);
    var e := Extract(x, b);
    var f := Filled(b[0].len, b[1].len, v);
    assert FullBox(x)[0] == Span(0, rows) && FullBox(x)[1] == Span(0, cols);
    assert |e.rows| == |f.rows|;
    forall i | 0 <= i < |e.rows|
      ensures e.rows[i] == f.rows[i]
    {
      assert e.rows[i] == x.rows[b[0].start + i][b[1].start .. b[1].start + b[1].len];
    }
  }

  lemma CutFilled(rows: nat, cols: nat, v: int, boxes: seq<Box>)
    requires rows >= 1 && forall i :: 0 <= i < |boxes| ==> Cuttable(Filled(rows, cols, v), boxes[i])
    ensures Cut(Filled(rows, cols, v), boxes) == seq(|boxes|, i requires 0 <= i < |boxes| => Filled(boxes[i][0].len, boxes[i][1].len, v))
  {
    forall i | 0 <= i < |boxes|
      ensures Cut(Filled(rows, cols, v), boxes)[i] == Filled(boxes[i][0].len, boxes[i][1].len, v)
    {
      ExtractFilled(rows, cols, v, boxes[i]);
    }
  }

  /** Four windows of a matrix filled with v cut to four matrices filled with v. */
  lemma CutFilledFour(rows: nat, cols: nat, v: int, bs: seq<Box>, b0: Box, b1: Box, b2: Box, b3: Box)
    requires rows >= 1 && bs == [b0, b1, b2, b3]
    requires |b0| == |b1| == |b2| == |b3| == 2
    requires forall i :: 0 <= i < |bs| ==> Cuttable(Filled(rows, cols, v), bs[i])
    ensures Cut(Filled(rows, cols, v), bs) ==
      [Filled(b0[0].len, b0[1].len, v), Filled(b1[0].len, b1[1].len, v), Filled(b2[0].len, b2[1].len, v), Filled(b3[0].len, b3[1].len, v)]
  {
    CutFilled(rows, cols, v, bs);
  }

  lemma FullBoxFilled(rows: nat, cols: nat, v: int)
    requires rows >= 1
    ensures WellFormed(Filled(rows, cols, v)) && FullBox(Filled(rows, cols, v)) == [Span(0, rows), Span(0, cols)]
  {
  }

  /** The documented example of partition: a 3 x 3 matrix and blocks of
      shape (2, 2) give a 2 x 2, a 2 x 1, a 1 x 2 and a 1 x 1 part. */
  lemma PartitionExample(v: int)
    ensures Partition(Filled(3, 3, v), [2, 2], 0) ==
      Ok([Filled(2, 2, v), Filled(2, 1, v), Filled(1, 2, v), Filled(1, 1, v)])
  {
    var x := Filled(3, 3, v);
    FullBoxFilled(3, 3, v);
    assert Conformed(x, [2, 2]) == Some(x);
    PartitionWindows(x, [2, 2], 0);
    PartsExample(0, 0);
    CutFilledFour(3, 3, v, Parts(FullBox(x), 2, 0), [Span(0, 2), Span(0, 2)], [Span(0, 2), Span(2, 1)], [Span(2, 1), Span(0, 2)], [Span(2, 1), Span(2, 1)]);
  }

  /** The documented example of partition_ignore: of the four parts of a
      3 x 3 matrix only the 2 x 2 block is kept. */
  lemma PartitionIgnoreExample(v: int)
    ensures PartitionIgnore(Filled(3, 3, v), [2, 2]) == Ok([Filled(2, 2, v)])
  {
    PartitionExample(v);
    var parts := [Filled(2, 2, v), Filled(2, 1, v), Filled(1, 2, v), Filled(1, 1, v)];
    assert Shape(parts[1]) == [2, 1] && Shape(parts[2]) == [1, 2] && Shape(parts[3]) == [1, 1];
    assert parts[1..][1..][1..] == [parts[3]] && [parts[3]][1..] == [];
    assert KeepParts(parts[1..][1..][1..], [2, 2]) == [];
    assert KeepParts(parts[1..][1..], [2, 2]) == [];
    assert KeepParts(parts[1..], [2, 2]) == [];
    assert KeepParts(parts, [2, 2]) == [parts[0]];
  }

  /** The example of the tests: a 5 x 5 matrix and blocks of shape (2, 2)
      keep four 2 x 2 blocks. */
  lemma PartitionIgnoreTestExample(v: int)
    ensures PartitionIgnore(Filled(5, 5, v), [2, 2]) ==
      Ok([Filled(2, 2, v), Filled(2, 2, v), Filled(2, 2, v), Filled(2, 2, v)])
  {
    var x := Filled(5, 5, v);
    FullBoxFilled(5, 5, v);
    assert Conformed(x, [2, 2]) == Some(x);
    PartitionIgnoreWindows(x, [2, 2]);
    var ws := IgnoreParts(FullBox(x), 2);
    assert PartitionIgnore(x, [2, 2]) == Ok(Cut(x, ws));
    IgnoreExample(0, 0);
    CutFilledFour(5, 5, v, ws, [Span(0, 2), Span(0, 2)], [Span(0, 2), Span(2, 2)], [Span(2, 2), Span(0, 2)], [Span(2, 2), Span(2, 2)]);
  }

  /** The documented example of partition_shrink: a 5 x 5 matrix, blocks of
      shape (3, 3) and minimal width 2 give one 3 x 3 and three 2 x 2 parts. */
  lemma PartitionShrinkExample(v: int)
    ensures PartitionShrink(Filled(5, 5, v), [3, 3], 2) ==
      Ok([Filled(3, 3, v), Filled(2, 2, v), Filled(2, 2, v), Filled(2, 2, v)])
  {
    var x := Filled(5, 5, v);
    FullBoxFilled(5, 5, v);
    assert Conformed(x, [3, 3]) == Some(x);
    PartitionShrinkWindows(x, [3, 3], 2);
    ShrinkExample(0, 0);
    CutFilledFour(5, 5, v, Shrink(FullBox(x), 3, 2), [Span(0, 3), Span(0, 3)], [Span(0, 2), Span(3, 2)], [Span(3, 2), Span(0, 2)], [Span(3, 2), Span(3, 2)]);
  }

  // ---------------------------------------------------------------------
  // lookup

  /** The key of a part in the reference table: string_from_array with the
      default separator '-'. */
  function Key(part: Array): string
    requires WellFormed(part)
  {
    Encoding.StringFromArray(part, '-')
  }

  /** A part holds decimal digits when every symbol is in 0..9. */
  predicate DecimalPart(x: Array) {
    match x
    case Vec(cells) => Encoding.InBase(cells, 10)
    case Mat(rows) => forall i :: 0 <= i < |rows| ==> Encoding.InBase(rows[i], 10)
  }

  /** The key of a part of decimal digits parses back to the part; a
      single-row matrix comes back 1-D. */
  lemma KeyParsesBack(x: Array)
    requires WellFormed(x) && DecimalPart(x)
    ensures Encoding.ArrayFromString(Key(x), '-') == Ok(if x.Mat? && |x.rows| == 1 then Vec(x.rows[0]) else x)
  {
    match x
    case Vec(cells) => Encoding.StringRoundTripVector(cells, '-');
    case Mat(rows) =>
      if |rows| == 1 {
        assert rows == [rows[0]];
        Encoding.StringRoundTripSingleRow(rows[0], '-');
      } else {
        Encoding.StringRoundTripMatrix(rows, '-');
      }
  }

  /** Distinct parts of decimal digits have distinct keys, except that a
      single-row matrix shares the key of its row as a 1-D array. */
  lemma KeysDistinct(x: Array, y: Array)
    requires WellFormed(x) && DecimalPart(x) && !(x.Mat? && |x.rows| == 1)
    requires WellFormed(y) && DecimalPart(y) && !(y.Mat? && |y.rows| == 1)
    ensures Key(x) == Key(y) <==> x == y
  {
    KeyParsesBack(x);
    KeyParsesBack(y);
  }

  /** The CTM value of one key. A key with a '-' is looked up as it is. For
      any other key, the get-default ctm[key.lstrip('0')] is evaluated first,
      so the lookup fails when the stripped key is absent even if the key
      itself is present; otherwise the key's own value is preferred. A
      failure names the unstripped key. */
  function KeyValue(key: string, ctm: map<string, real>): (r: Result<real>)
    ensures '-' in key ==> (r.Ok? <==> key in ctm)
    ensures '-' !in key ==> (r.Ok? <==> LStrip(key, '0') in ctm)
    ensures r.Ok? ==> r.value == (if key in ctm then ctm[key] else ctm[LStrip(key, '0')])
    ensures r.Err? ==> r.error == MissingKey(key)
  {
    if '-' in key then
      if key in ctm then Ok(ctm[key]) else Err(MissingKey(key))
    else
      var stripped := LStrip(key, '0');
      if stripped !in ctm then Err(MissingKey(key))
      else if key in ctm then Ok(ctm[key])
      else Ok(ctm[stripped])
  }

  /** lookup(parts, ctm), all pairs at once: the key and value of every part,
      in order, or the failure of the first part whose key is missing. */
  function Lookup(parts: seq<Array>, ctm: map<string, real>): Result<seq<(string, real)>>
    requires forall i :: 0 <= i < |parts| ==> WellFormed(parts[i])
  {
    if parts == [] then Ok([])
    else
      match KeyValue(Key(parts[0]), ctm)
      case Err(e) => Err(e)
      case Ok(v) =>
        match Lookup(parts[1..], ctm)
        case Err(e) => Err(e)
        case Ok(rest) => Ok([(Key(parts[0]), v)] + rest)
  }

  /** lookup succeeds iff every part's key resolves, and then yields one
      (key, value) pair per part, in order. */
  lemma {:induction false} LookupPairs(parts: seq<Array>, ctm: map<string, real>)
    requires forall i :: 0 <= i < |parts| ==> WellFormed(parts[i])
    ensures Lookup(parts, ctm).Ok? <==> forall i :: 0 <= i < |parts| ==> KeyValue(Key(parts[i]), ctm).Ok?
    ensures Lookup(parts, ctm).Ok? ==>
      && |Lookup(parts, ctm).value| == |parts|
      && forall i :: 0 <= i < |parts| ==>
        Lookup(parts, ctm).value[i] == (Key(parts[i]), KeyValue(Key(parts[i]), ctm).value)
  {
    if parts != [] {
      var tail := parts[1..];
      LookupPairs(tail, ctm);
      assert forall i :: 1 <= i < |parts| ==> parts[i] == tail[i - 1];
      if KeyValue(Key(parts[0]), ctm).Ok? && Lookup(tail, ctm).Ok? {
        var r := Lookup(parts, ctm).value;
        assert r == [(Key(parts[0]), KeyValue(Key(parts[0]), ctm).value)] + Lookup(tail, ctm).value;
        assert forall i :: 1 <= i < |parts| ==> r[i] == Lookup(tail, ctm).value[i - 1];
      } else if KeyValue(Key(parts[0]), ctm).Ok? {
        var j :| 0 <= j < |tail| && KeyValue(Key(tail[j]), ctm).Err?;
        assert parts[j + 1] == tail[j];
      }
    }
  }

  /** A failed lookup names the key of the first part that is missing. */
  lemma {:induction false} LookupError(parts: seq<Array>, ctm: map<string, real>)
    requires forall i :: 0 <= i < |parts| ==> WellFormed(parts[i])
    ensures Lookup(parts, ctm).Err? ==> exists i ::
      && 0 <= i < |parts|
      && (forall j :: 0 <= j < i ==> KeyValue(Key(parts[j]), ctm).Ok?)
      && KeyValue(Key(parts[i]), ctm).Err?
      && Lookup(parts, ctm).error == MissingKey(Key(parts[i]))
  {
    if parts != [] && KeyValue(Key(parts[0]), ctm).Ok? && Lookup(parts[1..], ctm).Err? {
      LookupError(parts[1..], ctm);
      var i :| && 0 <= i < |parts| - 1
        && (forall j :: 0 <= j < i ==> KeyValue(Key(parts[1..][j]), ctm).Ok?)
        && KeyValue(Key(parts[1..][i]), ctm).Err?
        && Lookup(parts[1..], ctm).error == MissingKey(Key(parts[1..][i]));
      assert forall j :: 0 <= j < i + 1 ==> KeyValue(Key(parts[j]), ctm).Ok? by {
        forall j | 0 <= j < i + 1
          ensures KeyValue(Key(parts[j]), ctm).Ok?
        {
          if j > 0 {
            assert parts[j] == parts[1..][j - 1];
          }
        }
      }
      assert parts[i + 1] == parts[1..][i];
      assert Lookup(parts, ctm).error == MissingKey(Key(parts[i + 1]));
    } else if parts != [] && KeyValue(Key(parts[0]), ctm).Err? {
      assert Lookup(parts, ctm).error == MissingKey(Key(parts[0]));
    }
  }

  /** The quirk of the eager get-default: a 1-D key with leading zeros that
      is in the table fails when its stripped form is not. */
  lemma EagerDefault(ctm: map<string, real>)
    requires "01" in ctm && "1" !in ctm
    ensures KeyValue("01", ctm) == Err(MissingKey("01"))
    ensures Lookup([Vec([0, 1])], ctm) == Err(MissingKey("01"))
  {
    assert LStrip("01", '0') == "1" by {
      assert "01"[1..] == "1";
    }
    assert Key(Vec([0, 1])) == "01" by {
      assert Encoding.RowString([1]) == "1";
      assert Encoding.RowString([0, 1]) == "0" + Encoding.RowString([1]);
    }
  }

  /** A key without leading zeros or with a '-' is looked up as it is. */
  lemma PlainKey(key: string, ctm: map<string, real>)
    requires '-' in key || key == [] || key[0] != '0'
    ensures KeyValue(key, ctm) == if key in ctm then Ok(ctm[key]) else Err(MissingKey(key))
  {
  }

  /** The example of the tests: the key of a 4 x 4 block of ones. */
  lemma KeyExample()
    ensures Key(Filled(4, 4, 1)) == "1111-1111-1111-1111"
  {
    var rows := Filled(4, 4, 1).rows;
    OnesPieces(rows);
    Encoding.MatrixString(rows, '-');
    JoinFour("1111", "1111", "1111", "1111", '-');
    OnesLiteral();
  }

  lemma OnesPieces(rows: seq<seq<int>>)
    requires rows == Filled(4, 4, 1).rows
    ensures WellFormed(Mat(rows)) && forall i :: 0 <= i < |rows| ==> Encoding.InBase(rows[i], 10)
    ensures seq(|rows|, i requires 0 <= i < |rows| => Encoding.DigitString(rows[i])) == ["1111", "1111", "1111", "1111"]
  {
    assert forall i :: 0 <= i < 4 ==> rows[i] == [1, 1, 1, 1];
    var pieces := seq(|rows|, i requires 0 <= i < |rows| => Encoding.DigitString(rows[i]));
    assert forall i :: 0 <= i < 4 ==> pieces[i] == "1111";
  }

  lemma OnesLiteral()
    ensures "1111" + ['-'] + "1111" + ['-'] + "1111" + ['-'] + "1111" == "1111-1111-1111-1111"
  {
  }

  /** The example of the tests: a 4 x 4 block of ones is found under its
      own key. */
  lemma LookupExample(ctm: map<string, real>)
    requires "1111-1111-1111-1111" in ctm
    ensures Lookup([Filled(4, 4, 1)], ctm) == Ok([("1111-1111-1111-1111", ctm["1111-1111-1111-1111"])])
  {
    var key := "1111-1111-1111-1111";
    KeyExample();
    assert '-' in key by {
      assert key[4] == '-';
    }
    assert KeyValue(key, ctm) == Ok(ctm[key]);
    var parts := [Filled(4, 4, 1)];
    assert parts[1..] == [];
    assert Lookup(parts, ctm) == Ok([(key, ctm[key])] + []);
    assert [(key, ctm[key])] + [] == [(key, ctm[key])];
  }

  // ---------------------------------------------------------------------
  // aggregate

  /** A part's key with its CTM value, as lookup yields it. */
  type Pair = (string, real)

  /** The distinct pairs of `ps` in order of first occurrence: the keys of the
      Counter built from `ps`, in its iteration order. */
  function Distinct(ps: seq<Pair>): (r: seq<Pair>)
    ensures forall p :: p in r <==> p in ps
    ensures NoDuplicates(r)
  {
    if ps == [] then []
    else
      var d := Distinct(ps[..|ps| - 1]);
      if ps[|ps| - 1] in d then d else d + [ps[|ps| - 1]]
  }

  predicate NoDuplicates(r: seq<Pair>) {
    forall i, j :: 0 <= i < j < |r| ==> r[i] != r[j]
  }

  /** The index of the first occurrence of `p` in `ps`. */
  function FirstIndex(ps: seq<Pair>, p: Pair): (k: nat)
    requires p in ps
    ensures k < |ps| && ps[k] == p && p !in ps[..k]
  {
    if ps[0] == p then 0
    else
      var k := FirstIndex(ps[1..], p);
      assert ps[..k + 1] == [ps[0]] + ps[1..][..k];
      k + 1
  }

  /** Any first occurrence is the one FirstIndex finds. */
  lemma FirstIndexUnique(ps: seq<Pair>, p: Pair, k: nat)
    requires k < |ps| && ps[k] == p && p !in ps[..k]
    ensures FirstIndex(ps, p) == k
  {
    var f := FirstIndex(ps, p);
    assert forall i :: 0 <= i < k ==> ps[..k][i] == ps[i];
    assert forall i :: 0 <= i < f ==> ps[..f][i] == ps[i];
  }

  /** The Counter lists its keys in the order in which they first occur. */
  lemma {:induction false} DistinctOrder(ps: seq<Pair>)
    ensures forall i, j :: 0 <= i < j < |Distinct(ps)| ==>
      FirstIndex(ps, Distinct(ps)[i]) < FirstIndex(ps, Distinct(ps)[j])
  {
    if ps != [] {
      var q, x := ps[..|ps| - 1], ps[|ps| - 1];
      assert ps == q + [x];
      DistinctOrder(q);
      var d := Distinct(q);
      forall p | p in q
        ensures FirstIndex(ps, p) == FirstIndex(q, p)
      {
        var f := FirstIndex(q, p);
        assert ps[..f] == q[..f];
        FirstIndexUnique(ps, p, f);
      }
      if x !in d {
        assert ps[..|q|] == q;
        FirstIndexUnique(ps, x, |q|);
        forall i | 0 <= i < |d|
          ensures FirstIndex(ps, Distinct(ps)[i]) < FirstIndex(ps, Distinct(ps)[|d|])
        {
          assert Distinct(ps)[i] == d[i] && d[i] in q;
        }
      }
    }
  }

  /** The BDM terms of the pairs in `order`, each pair's value plus log2 of
      its multiplicity in `counts`, summed from the first pair on. */
  function Terms(order: seq<Pair>, counts: multiset<Pair>, log2: nat -> real): real {
    if order == [] then 0.0
    else
      var last := order[|order| - 1];
      Terms(order[..|order| - 1], counts, log2) + (last.1 + log2(counts[last]))
  }

  /** The BDM value of a sequence of pairs: over its distinct pairs, the sum
      of value + log2(multiplicity). */
  function Bdm(ps: seq<Pair>, log2: nat -> real): real {
    Terms(Distinct(ps), multiset(ps), log2)
  }

  lemma DistinctSnoc(ps: seq<Pair>, i: nat)
    requires i < |ps|
    ensures Distinct(ps[..i + 1]) == if ps[i] in Distinct(ps[..i]) then Distinct(ps[..i]) else Distinct(ps[..i]) + [ps[i]]
    ensures multiset(ps[..i + 1]) == multiset(ps[..i]) + multiset{ps[i]}
  {
    assert ps[..i + 1][..i] == ps[..i] && ps[..i + 1] == ps[..i] + [ps[i]];
  }

  lemma TermsSnoc(order: seq<Pair>, j: nat, counts: multiset<Pair>, log2: nat -> real)
    requires j < |order|
    ensures Terms(order[..j + 1], counts, log2) == Terms(order[..j], counts, log2) + (order[j].1 + log2(counts[order[j]]))
  {
    assert order[..j + 1][..j] == order[..j];
  }

  /** `counter` and `order` are the Counter of the first i pairs and its keys
      in first-seen order. */
  ghost predicate Counted(ctms: seq<Pair>, i: nat, counter: map<Pair, nat>, order: seq<Pair>)
    requires i <= |ctms|
  {
    order == Distinct(ctms[..i])
    && (forall p :: p in counter <==> p in order)
    && forall p :: p in counter ==> counter[p] == multiset(ctms[..i])[p]
  }

  /** Counting a pair seen before keeps the Counter in step with the pairs seen. */
  lemma CountedAgain(ctms: seq<Pair>, i: nat, counter: map<Pair, nat>, order: seq<Pair>)
    requires i < |ctms| && Counted(ctms, i, counter, order) && ctms[i] in counter
    ensures Counted(ctms, i + 1, counter[ctms[i] := counter[ctms[i]] + 1], order)
  {
    DistinctSnoc(ctms, i);
    CountAgain(counter, ctms[i], multiset(ctms[..i]), multiset(ctms[..i + 1]));
  }

  /** Counting a new pair keeps the Counter in step with the pairs seen. */
  lemma CountedFirst(ctms: seq<Pair>, i: nat, counter: map<Pair, nat>, order: seq<Pair>)
    requires i < |ctms| && Counted(ctms, i, counter, order) && ctms[i] !in counter
    ensures Counted(ctms, i + 1, counter[ctms[i] := 1], order + [ctms[i]])
  {
    DistinctSnoc(ctms, i);
    assert ctms[i] !in ctms[..i];
    CountFirst(counter, ctms[i], multiset(ctms[..i]), multiset(ctms[..i + 1]));
  }

  /** A pair counted before: its count goes up by one, the others stay. */
  lemma CountAgain(counter: map<Pair, nat>, pair: Pair, m: multiset<Pair>, m': multiset<Pair>)
    requires pair in counter && m' == m + multiset{pair}
    requires forall p :: p in counter ==> counter[p] == m[p]
    ensures forall p :: p in counter[pair := counter[pair] + 1] ==> counter[pair := counter[pair] + 1][p] == m'[p]
  {
  }

  /** A pair not counted before: it enters with count one, the others stay. */
  lemma CountFirst(counter: map<Pair, nat>, pair: Pair, m: multiset<Pair>, m': multiset<Pair>)
    requires pair !in counter && m[pair] == 0 && m' == m + multiset{pair}
    requires forall p :: p in counter ==> counter[p] == m[p]
    ensures forall p :: p in counter[pair := 1] ==> counter[pair := 1][p] == m'[p]
  {
  }

  /** The counting loop of aggregate: a Counter updated with one pair at a
      time, its keys in first-seen order. */
  method Count(ctms: seq<Pair>) returns (counter: map<Pair, nat>, order: seq<Pair>)
    ensures order == Distinct(ctms)
    ensures forall p :: p in counter <==> p in ctms
    ensures forall p :: p in counter ==> counter[p] == multiset(ctms)[p]
  {
    counter, order := map[], [];
    var i := 0;
    while i < |ctms|
      invariant 0 <= i <= |ctms| && Counted(ctms, i, counter, order)
    {
      var pair := ctms[i];
      if pair in counter {
        CountedAgain(ctms, i, counter, order);
        counter := counter[pair := counter[pair] + 1];
      } else {
        CountedFirst(ctms, i, counter, order);
        counter := counter[pair := 1];
        order := order + [pair];
      }
      i := i + 1;
    }
    assert ctms[..i] == ctms;
  }

  /** aggregate(ctms): count the pairs in a Counter, then add up value plus
      log2 of the count for every counted pair, in the Counter's order. The
      float log2 of numpy is the parameter `log2`. */
  method Aggregate(ctms: seq<Pair>, log2: nat -> real) returns (bdm: real)
    ensures bdm == Bdm(ctms, log2)
  {
    var counter, order := Count(ctms);
    bdm := 0.0;
    var j := 0;
    while j < |order|
      invariant 0 <= j <= |order|
      invariant bdm == Terms(order[..j], multiset(ctms), log2)
    {
      var pair := order[j];
      TermsSnoc(order, j, multiset(ctms), log2);
      bdm := bdm + (pair.1 + log2(counter[pair]));
      j := j + 1;
    }
    assert order[..j] == order;
  }

  /** No pairs give 0. */
  lemma BdmEmpty(log2: nat -> real)
    ensures Bdm([], log2) == 0.0
  {
  }

  /** A single pair gives exactly its value. */
  lemma BdmSingle(p: Pair, log2: nat -> real)
    requires log2(1) == 0.0
    ensures Bdm([p], log2) == p.1
  {
    DistinctRepeat(p, 1);
    MultisetRepeat(p, 1);
    assert Repeat(p, 1) == [p];
    assert [p][..0] == [];
    assert Terms([p], multiset([p]), log2) == 0.0 + (p.1 + log2(1));
  }

  /** n copies of one pair give its value plus log2(n). */
  lemma BdmRepeat(p: Pair, n: nat, log2: nat -> real)
    requires n >= 1
    ensures Bdm(Repeat(p, n), log2) == p.1 + log2(n)
  {
    DistinctRepeat(p, n);
    MultisetRepeat(p, n);
    assert [p][..0] == [];
    assert Terms([p], multiset(Repeat(p, n)), log2) == 0.0 + (p.1 + log2(n));
  }

  lemma {:induction false} DistinctRepeat(p: Pair, n: nat)
    requires n >= 1
    ensures Distinct(Repeat(p, n)) == [p]
  {
    if n == 1 {
      assert Repeat(p, 1)[..0] == [];
    } else {
      assert Repeat(p, n)[..n - 1] == Repeat(p, n - 1);
      DistinctRepeat(p, n - 1);
    }
  }

  lemma {:induction false} MultisetRepeat(p: Pair, n: nat)
    ensures multiset(Repeat(p, n))[p] == n
  {
    if n > 0 {
      assert Repeat(p, n) == Repeat(p, n - 1) + [p];
      MultisetRepeat(p, n - 1);
    }
  }

  /** The multiplicities of the pairs in `order`, summed. */
  function Multiplicities(order: seq<Pair>, counts: multiset<Pair>): nat {
    if order == [] then 0 else Multiplicities(order[..|order| - 1], counts) + counts[order[|order| - 1]]
  }

  /** The Counter's counts add up to the number of pairs. */
  lemma {:induction false} MultiplicitiesSum(ps: seq<Pair>)
    ensures Multiplicities(Distinct(ps), multiset(ps)) == |ps|
  {
    if ps != [] {
      var i := |ps| - 1;
      var x := ps[i];
      var d := Distinct(ps[..i]);
      assert ps[..i + 1] == ps;
      DistinctSnoc(ps, i);
      MultiplicitiesSum(ps[..i]);
      MultiplicitiesAdd(d, multiset(ps[..i]), x);
      if x !in d {
        assert (d + [x])[..|d|] == d;
        assert x !in ps[..i];
      }
    }
  }

  /** Adding one copy of x adds one to the sum when x is listed once, and
      nothing when it is not listed. */
  lemma {:induction false} MultiplicitiesAdd(order: seq<Pair>, counts: multiset<Pair>, x: Pair)
    requires NoDuplicates(order)
    ensures Multiplicities(order, counts + multiset{x}) == Multiplicities(order, counts) + (if x in order then 1 else 0)
  {
    if order != [] {
      var init := order[..|order| - 1];
      assert NoDuplicates(init);
      MultiplicitiesAdd(init, counts, x);
      assert x in order <==> x in init || x == order[|order| - 1];
      assert x in init ==> x != order[|order| - 1];
    }
  }

  /** The result does not depend on the order of the pairs. */
  lemma BdmPermutation(a: seq<Pair>, b: seq<Pair>, log2: nat -> real)
    requires multiset(a) == multiset(b)
    ensures Bdm(a, log2) == Bdm(b, log2)
  {
    forall p ensures p in Distinct(a) <==> p in Distinct(b) {
      assert p in a <==> p in multiset(a);
      assert p in b <==> p in multiset(b);
    }
    TermsPermutation(Distinct(a), Distinct(b), multiset(a), log2);
  }

  /** Any two duplicate-free listings of the same pairs have the same terms. */
  lemma {:induction false} TermsPermutation(o1: seq<Pair>, o2: seq<Pair>, counts: multiset<Pair>, log2: nat -> real)
    requires NoDuplicates(o1) && NoDuplicates(o2)
    requires forall p :: p in o1 <==> p in o2
    ensures Terms(o1, counts, log2) == Terms(o2, counts, log2)
    decreases |o1|
  {
    if o1 == [] {
      HeadMember(o2);
    } else {
      var x := o1[|o1| - 1];
      var init := o1[..|o1| - 1];
      assert x in o2;
      var k :| 0 <= k < |o2| && o2[k] == x;
      var u, v := o2[..k], o2[k + 1..];
      assert o2 == u + [x] + v;
      TermsRemove(u, x, v, counts, log2);
      RemoveOne(o1, o2, k);
      TermsPermutation(init, u + v, counts, log2);
    }
  }

  /** A listing that is not empty has its first pair as a member. */
  lemma HeadMember(o: seq<Pair>)
    ensures o == [] || o[0] in o
  {
  }

  /** The listing `o` without its element at k. */
  function Without(o: seq<Pair>, k: nat): (r: seq<Pair>)
    requires k < |o|
    ensures |r| == |o| - 1 && forall i :: 0 <= i < |r| ==> r[i] == o[if i < k then i else i + 1]
  {
    o[..k] + o[k + 1..]
  }

  /** Taking the last pair out of o1 and the same pair, at k, out of o2
      leaves two duplicate-free listings of the same pairs. */
  lemma RemoveOne(o1: seq<Pair>, o2: seq<Pair>, k: nat)
    requires NoDuplicates(o1) && NoDuplicates(o2)
    requires forall p :: p in o1 <==> p in o2
    requires o1 != [] && k < |o2| && o2[k] == o1[|o1| - 1]
    ensures NoDuplicates(o1[..|o1| - 1]) && NoDuplicates(Without(o2, k))
    ensures forall p :: p in o1[..|o1| - 1] <==> p in Without(o2, k)
  {
    var x := o2[k];
    var init := o1[..|o1| - 1];
    var rest := Without(o2, k);
    forall p ensures p in init <==> p in rest {
      if p in init {
        var t :| 0 <= t < |init| && init[t] == p;
        assert o1[t] == p;
        assert p in o2;
        var s :| 0 <= s < |o2| && o2[s] == p;
        assert s != k;
        assert rest[if s < k then s else s - 1] == p;
      }
      if p in rest {
        var t :| 0 <= t < |rest| && rest[t] == p;
        assert p in o2 && p != x;
        var s :| 0 <= s < |o1| && o1[s] == p;
        assert s != |o1| - 1;
        assert init[s] == p;
      }
    }
  }

  /** Taking one pair out of a listing takes its term out of the sum. */
  lemma {:induction false} TermsRemove(u: seq<Pair>, x: Pair, v: seq<Pair>, counts: multiset<Pair>, log2: nat -> real)
    ensures Terms(u + [x] + v, counts, log2) == Terms(u + v, counts, log2) + (x.1 + log2(counts[x]))
    decreases |v|
  {
    if v == [] {
      assert (u + [x])[..|u|] == u;
      assert u + v == u;
      assert u + [x] + v == u + [x];
    } else {
      var w := v[..|v| - 1];
      var y := v[|v| - 1];
      assert u + [x] + v == (u + [x] + w) + [y];
      assert u + v == (u + w) + [y];
      assert ((u + [x] + w) + [y])[..|u + [x] + w|] == u + [x] + w;
      assert ((u + w) + [y])[..|u + w|] == u + w;
      TermsRemove(u, x, w, counts, log2);
    }
  }
}
