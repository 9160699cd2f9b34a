/** The BDM interface: a configuration (dimensionality, part shape, CTM
    dataset) and the complexity of a dataset as its three stages in a row,
    partition_ignore, lookup and aggregate. */
module Pipeline {
  import opened Outcomes
  import opened Arrays
  import opened Text
  import opened Windows
  import opened Partitioning
  import opened Stages

  /** The part shape of the CTM dataset bundled for a dimensionality: blocks
      of 12 symbols for sequences and of 4 x 4 for matrices; no other
      dimensionality has one. */
  function DefaultShape(ndim: int): (r: Option<seq<int>>)
    ensures r.Some? <==> ndim == 1 || ndim == 2
    ensures r.Some? ==> |r.value| == ndim && Symmetric(r.value) && r.value[0] >= 1
  {
    if ndim == 1 then Some([12])
    else if ndim == 2 then Some([4, 4])
    else None
  }

  /** The file name of the CTM dataset bundled for a dimensionality. */
  function DefaultName(ndim: int): (r: Option<string>)
    ensures r.Some? <==> ndim == 1 || ndim == 2
  {
    if ndim == 1 then Some("ctm-bin-1d.pickle")
    else if ndim == 2 then Some("ctm-bin-2d.pickle")
    else None
  }

  /** A configured BDM: its dimensionality, the shape of the parts of its
      CTM dataset, the dataset's name and its table from keys to CTM values. */
  datatype Config = Config(ndim: int, ctmShape: seq<int>, ctmName: string, ctm: map<string, real>)

  /** BDM(ndim, ctm_shape, ctm_dname) with `ctm` the table the named dataset
      holds. A shape or a name left out is the default of the dimensionality,
      which fails when the dimensionality has none. */
  function Configure(ndim: int, ctmShape: Option<seq<int>>, ctmName: Option<string>, ctm: map<string, real>): (r: Result<Config>)
    ensures r.Ok? <==> (ctmShape.Some? && ctmName.Some?) || ndim == 1 || ndim == 2
    ensures r.Err? ==> r.error == NoDefault(ndim)
    ensures r.Ok? ==> r.value.ndim == ndim && r.value.ctm == ctm
    ensures r.Ok? && ctmShape.Some? ==> r.value.ctmShape == ctmShape.value
    ensures r.Ok? && ctmName.Some? ==> r.value.ctmName == ctmName.value
    ensures r.Ok? && ctmShape.None? ==> r.value.ctmShape == DefaultShape(ndim).value
    ensures r.Ok? && ctmShape.None? ==> |r.value.ctmShape| == ndim && Symmetric(r.value.ctmShape)
    ensures r.Ok? && ctmName.None? ==> r.value.ctmName == DefaultName(ndim).value
  {
    var shape := if ctmShape.Some? then ctmShape else DefaultShape(ndim);
    var name := if ctmName.Some? then ctmName else DefaultName(ndim);
    if shape.None? || name.None? then Err(NoDefault(ndim))
    else Ok(Config(ndim, shape.value, name.value, ctm))
  }

  /** BDM(ndim=1) and BDM(ndim=2) pick the bundled 12-symbol and 4 x 4
      binary datasets. */
  lemma ConfigureDefaults(ctm: map<string, real>)
    ensures Configure(1, None, None, ctm) == Ok(Config(1, [12], "ctm-bin-1d.pickle", ctm))
    ensures Configure(2, None, None, ctm) == Ok(Config(2, [4, 4], "ctm-bin-2d.pickle", ctm))
    ensures Configure(3, None, Some("ctm-bin-2d.pickle"), ctm) == Err(NoDefault(3))
  {
  }

  /** A part shape partition_ignore accepts without failing on a block width
      below one. */
  predicate UsableShape(shape: seq<int>) {
    Symmetric(shape) ==> shape[0] >= 1
  }

  /** complexity(x): the BDM value of the key-value pairs of the whole
      blocks of `x`; it fails when the partition fails or when a block's key
      is not in the table. */
  function ComplexityOf(x: Array, shape: seq<int>, ctm: map<string, real>, log2: nat -> real): Result<real>
    requires WellFormed(x) && UsableShape(shape)
  {
    match PartitionIgnore(x, shape)
    case Err(e) => Err(e)
    case Ok(parts) =>
      match Lookup(parts, ctm)
      case Err(e) => Err(e)
      case Ok(ctms) => Ok(Bdm(ctms, log2))
  }

  /** complexity fails exactly when the partition fails, with its error, or
      when some whole block's key is missing from the table, naming that key. */
  lemma ComplexityError(x: Array, shape: seq<int>, ctm: map<string, real>, log2: nat -> real)
    requires WellFormed(x) && UsableShape(shape)
    ensures PartitionIgnore(x, shape).Err? ==> ComplexityOf(x, shape, ctm, log2) == Err(PartitionIgnore(x, shape).error)
    ensures PartitionIgnore(x, shape).Ok? ==>
      var parts := PartitionIgnore(x, shape).value;
      (ComplexityOf(x, shape, ctm, log2).Err? <==> exists i :: 0 <= i < |parts| && KeyValue(Key(parts[i]), ctm).Err?) &&
      (ComplexityOf(x, shape, ctm, log2).Err? ==>
        exists i :: 0 <= i < |parts| && ComplexityOf(x, shape, ctm, log2).error == MissingKey(Key(parts[i])))
  {
    if PartitionIgnore(x, shape).Ok? {
      LookupPairs(PartitionIgnore(x, shape).value, ctm);
      LookupError(PartitionIgnore(x, shape).value, ctm);
    }
  }

  /** BDM.complexity(x), running the stages in turn with aggregate counting
      the pairs in a loop. */
  method Complexity(bdm: Config, x: Array, log2: nat -> real) returns (r: Result<real>)
    requires WellFormed(x) && UsableShape(bdm.ctmShape)
    ensures r == ComplexityOf(x, bdm.ctmShape, bdm.ctm, log2)
  {
    var parts := PartitionIgnore(x, bdm.ctmShape);
    if parts.Err? {
      return Err(parts.error);
    }
    var ctms := Lookup(parts.value, bdm.ctm);
    if ctms.Err? {
      return Err(ctms.error);
    }
    var cmx := Aggregate(ctms.value, log2);
    return Ok(cmx);
  }

  /** A dataset shorter than the blocks along some axis has no whole block,
      so its complexity is 0 whatever the table. */
  lemma ComplexityTooSmall(x: Array, shape: seq<int>, a: nat, ctm: map<string, real>, log2: nat -> real)
    requires WellFormed(x) && Symmetric(shape) && shape[0] >= 1 && NDim(x) == |shape|
    requires a < NDim(x) && Shape(x)[a] < shape[0]
    ensures ComplexityOf(x, shape, ctm, log2) == Ok(0.0)
  {
    NoWholeBlock(x, shape, a);
    var parts := PartitionIgnore(x, shape);
    assert parts == Ok([]);
    assert Lookup([], ctm) == Ok([]);
    BdmEmpty(log2);
  }

  lemma NoWholeBlock(x: Array, shape: seq<int>, a: nat)
    requires WellFormed(x) && Symmetric(shape) && shape[0] >= 1 && NDim(x) == |shape|
    requires a < NDim(x) && Shape(x)[a] < shape[0]
    ensures PartitionIgnore(x, shape) == Ok([])
  {
    assert Conformed(x, shape) == Some(x);
    PartitionIgnoreCount(x, shape);
    NoBlockAlong(x, shape[0], a);
  }

  lemma NoBlockAlong(x: Array, w: nat, a: nat)
    requires WellFormed(x) && w >= 1 && a < NDim(x) && Shape(x)[a] < w
    ensures Product(Blocks(FullBox(x), w)) == 0
  {
    var b := FullBox(x);
    assert b[a].len == Lens(b)[a] == Shape(x)[a];
    var q := Blocks(b, w);
    assert q[a] == 0;
    ProductZero(q, a);
  }

  /** The key of a 2 x 2 block of ones. */
  lemma KeyOfOnes()
    ensures Key(Filled(2, 2, 1)) == "11-11"
  {
    var rows := Filled(2, 2, 1).rows;
    assert forall i :: 0 <= i < 2 ==> rows[i] == [1, 1];
    Encoding.MatrixString(rows, '-');
    var pieces := seq(|rows|, i requires 0 <= i < |rows| => Encoding.DigitString(rows[i]));
    assert forall i :: 0 <= i < 2 ==> pieces[i] == "11";
    assert pieces == ["11", "11"];
    assert Join(["11"], '-') == "11";
    assert Join(pieces, '-') == "11" + "-" + "11";
  }

  /** Parts that are all the same part p give p's pair, once per part. */
  lemma LookupRepeat(p: Array, n: nat, c: real, ctm: map<string, real>)
    requires WellFormed(p) && KeyValue(Key(p), ctm) == Ok(c)
    ensures Lookup(Repeat(p, n), ctm) == Ok(Repeat((Key(p), c), n))
  {
    LookupPairs(Repeat(p, n), ctm);
    var r := Lookup(Repeat(p, n), ctm);
    assert r.Ok?;
    assert r.value == Repeat((Key(p), c), n);
  }

  /** When the whole blocks of x are n >= 1 copies of one part, the
      complexity is that part's CTM value plus log2(n). */
  lemma ComplexityRepeat(x: Array, shape: seq<int>, p: Array, n: nat, c: real, ctm: map<string, real>, log2: nat -> real)
    requires WellFormed(x) && UsableShape(shape) && WellFormed(p) && n >= 1
    requires PartitionIgnore(x, shape) == Ok(Repeat(p, n))
    requires KeyValue(Key(p), ctm) == Ok(c)
    ensures ComplexityOf(x, shape, ctm, log2) == Ok(c + log2(n))
  {
    var ctms := Repeat((Key(p), c), n);
    RepeatStages(p, n, c, ctm, log2);
    ComplexityOk(x, shape, Repeat(p, n), ctms, ctm, log2, c + log2(n));
  }

  lemma RepeatStages(p: Array, n: nat, c: real, ctm: map<string, real>, log2: nat -> real)
    requires WellFormed(p) && n >= 1 && KeyValue(Key(p), ctm) == Ok(c)
    ensures Lookup(Repeat(p, n), ctm) == Ok(Repeat((Key(p), c), n))
    ensures Bdm(Repeat((Key(p), c), n), log2) == c + log2(n)
  {
    LookupRepeat(p, n, c, ctm);
    BdmRepeat((Key(p), c), n, log2);
  }

  /** The complexity of x when both the partition and the lookup succeed. */
  lemma ComplexityOk(x: Array, shape: seq<int>, parts: seq<Array>, ctms: seq<Pair>, ctm: map<string, real>, log2: nat -> real, v: real)
    requires WellFormed(x) && UsableShape(shape)
    requires PartitionIgnore(x, shape) == Ok(parts)
    requires Lookup(parts, ctm) == Ok(ctms) && Bdm(ctms, log2) == v
    ensures ComplexityOf(x, shape, ctm, log2) == Ok(v)
  {
  }

  /** A 2 x 2 block of ones is found in the table under "11-11". */
  lemma OnesValue(ctm: map<string, real>)
    requires "11-11" in ctm
    ensures KeyValue(Key(Filled(2, 2, 1)), ctm) == Ok(ctm["11-11"])
  {
    var key := "11-11";
    KeyOfOnes();
    assert '-' in key by {
      assert key[2] == '-';
    }
  }
}
