/** The datasets the core works on: 1-D sequences and 2-D matrices of integer
    symbols, with numpy's row-major ravel, reshape and squeeze. */
module Arrays {
  import opened Outcomes

  /** A numpy array of one or two dimensions. */
  datatype Array = Vec(cells: seq<int>) | Mat(rows: seq<seq<int>>)

  /** A matrix has at least one row, and all its rows are equally long. */
  predicate WellFormed(x: Array) {
    x.Mat? ==> |x.rows| > 0 && forall i :: 0 <= i < |x.rows| ==> |x.rows[i]| == |x.rows[0]|
  }

  function NDim(x: Array): nat {
    if x.Vec? then 1 else 2
  }

  function Shape(x: Array): (s: seq<nat>)
    requires WellFormed(x)
    ensures |s| == NDim(x)
  {
    if x.Vec? then [|x.cells|] else [|x.rows|, |x.rows[0]|]
  }

  /** Row-major concatenation of rows. */
  function Flatten(rows: seq<seq<int>>): seq<int> {
    if rows == [] then [] else rows[0] + Flatten(rows[1..])
  }

  /** numpy.ravel in row-major order. */
  function Ravel(x: Array): seq<int> {
    if x.Vec? then x.cells else Flatten(x.rows)
  }

  /** Number of cells of a shape (numpy.multiply.reduce). */
  function Product(shape: seq<nat>): nat {
    if shape == [] then 1 else shape[0] * Product(shape[1..])
  }

  /** Cuts `s` into `r` consecutive rows of `c` cells. */
  function Chunk(s: seq<int>, r: nat, c: nat): (rows: seq<seq<int>>)
    requires |s| == r * c
    ensures |rows| == r && forall i :: 0 <= i < r ==> |rows[i]| == c
  {
    if r == 0 then [] else [s[..c]] + Chunk(s[c..], r - 1, c)
  }

  /** numpy.reshape, in row-major order, onto a 1-D or 2-D shape. */
  function Reshape(s: seq<int>, shape: seq<nat>): (x: Array)
    requires |shape| == 1 || |shape| == 2
    requires |s| == Product(shape)
    requires |shape| == 2 ==> shape[0] > 0
    ensures WellFormed(x) && Shape(x) == shape
  {
    ProductSmall(shape);
    if |shape| == 1 then Vec(s) else Mat(Chunk(s, shape[0], shape[1]))
  }

  lemma ProductSmall(shape: seq<nat>)
    requires |shape| == 1 || |shape| == 2
    ensures Product(shape) == if |shape| == 1 then shape[0] else shape[0] * shape[1]
  {
    assert Product(shape[1..]) == if |shape| == 1 then 1 else shape[1] * Product(shape[2..]);
  }

  /** numpy.squeeze: drops the axes of length 1; `None` is the 0-D result. */
  function Squeeze(x: Array): (r: Option<Array>)
    requires WellFormed(x)
    ensures r.Some? ==> WellFormed(r.value) && Ravel(r.value) == Ravel(x)
    ensures r.Some? ==> forall a :: 0 <= a < |Shape(r.value)| ==> Shape(r.value)[a] != 1
    ensures r.None? <==> |Ravel(x)| == 1
    ensures x.Vec? && |x.cells| != 1 ==> r == Some(x)
    ensures x.Mat? && |x.rows| != 1 && |x.rows[0]| != 1 ==> r == Some(x)
    ensures x.Mat? && (|x.rows| == 1) != (|x.rows[0]| == 1) ==> r == Some(Vec(Ravel(x)))
  {
    match x
    case Vec(v) => if |v| == 1 then None else Some(x)
    case Mat(rows) =>
      FlattenUniform(rows, |rows[0]|);
      if |rows| == 1 && |rows[0]| == 1 then None
      else if |rows| == 1 then
        assert Flatten(rows) == rows[0] + Flatten([]);
        Some(Vec(rows[0]))
      else if |rows[0]| == 1 then
        FlattenColumn(rows);
        Some(Vec(seq(|rows|, i requires 0 <= i < |rows| => rows[i][0])))
      else Some(x)
  }

  lemma {:induction false} FlattenUniform(rows: seq<seq<int>>, c: nat)
    requires forall i :: 0 <= i < |rows| ==> |rows[i]| == c
    ensures |Flatten(rows)| == |rows| * c
  {
    if rows != [] {
      FlattenUniform(rows[1..], c);
    }
  }

  lemma {:induction false} FlattenColumn(rows: seq<seq<int>>)
    requires forall i :: 0 <= i < |rows| ==> |rows[i]| == 1
    ensures Flatten(rows) == seq(|rows|, i requires 0 <= i < |rows| => rows[i][0])
  {
    if rows != [] {
      FlattenColumn(rows[1..]);
    }
  }

  /** Reshape undoes ravel on rows of equal length. */
  lemma {:induction false} ChunkFlatten(rows: seq<seq<int>>, c: nat)
    requires forall i :: 0 <= i < |rows| ==> |rows[i]| == c
    ensures |Flatten(rows)| == |rows| * c
    ensures Chunk(Flatten(rows), |rows|, c) == rows
  {
    FlattenUniform(rows, c);
    if rows != [] {
      ChunkFlatten(rows[1..], c);
      var f := Flatten(rows);
      assert f[..c] == rows[0];
      assert f[c..] == Flatten(rows[1..]);
    }
  }

  /** Ravel undoes reshape. */
  lemma {:induction false} FlattenChunk(s: seq<int>, r: nat, c: nat)
    requires |s| == r * c
    ensures Flatten(Chunk(s, r, c)) == s
  {
    if r > 0 {
      FlattenChunk(s[c..], r - 1, c);
      assert s == s[..c] + s[c..];
    }
  }

  /** Reshaping a raveled well-formed array onto its own shape gives it back. */
  lemma ReshapeRavel(x: Array)
    requires WellFormed(x)
    ensures |Ravel(x)| == Product(Shape(x))
    ensures Reshape(Ravel(x), Shape(x)) == x
  {
    ProductSmall(Shape(x));
    if x.Mat? {
      ChunkFlatten(x.rows, |x.rows[0]|);
    }
  }

  /** Raveling a reshaped sequence gives it back. */
  lemma RavelReshape(s: seq<int>, shape: seq<nat>)
    requires |shape| == 1 || |shape| == 2
    requires |s| == Product(shape)
    requires |shape| == 2 ==> shape[0] > 0
    ensures Ravel(Reshape(s, shape)) == s
  {
    ProductSmall(shape);
    if |shape| == 2 {
      FlattenChunk(s, shape[0], shape[1]);
    }
  }

  /** The rows-by-cols matrix whose every cell holds `v`. */
  function Filled(rows: nat, cols: nat, v: int): Array {
    Mat(seq(rows, _ => seq(cols, _ => v)))
  }
}
