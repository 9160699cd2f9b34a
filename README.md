# Block Decomposition Method core, in Dafny

This project models the core of `pybdm`, a Python implementation of the Block
Decomposition Method (BDM). BDM approximates the algorithmic complexity of a
dataset of small integer symbols in three stages:

- **split**: the dataset is cut into square blocks (`partition`,
  `partition_ignore`, `partition_shrink`);
- **apply**: each block's canonical string key is looked up in a reference
  table of CTM (Coding Theorem Method) values (`lookup`);
- **combine**: the looked-up values are aggregated (`aggregate`). Every
  distinct `(key, value)` pair adds its value plus log2 of its multiplicity.

The model also covers the encoding module. It turns symbol arrays into
integer codes and back (`encode_sequence`, `decode_sequence`, `encode_array`,
`decode_array`, `encode_string`, `decode_string`). It also turns them into the
`'-'`-separated digit strings used as table keys and back (`string_from_array`,
`array_from_string`). Finally it covers the `BDM` class's configuration and
`complexity`, which chains the three stages.

Layout, one module per file:

| file | module | what it holds |
|---|---|---|
| `outcomes.dfy` | `Outcomes` | the Python exceptions as an `Error` datatype; `Option` and `Result` |
| `arrays.dfy` | `Arrays` | 1-D and 2-D arrays (`Vec`, `Mat`), shape, row-major `ravel`, `reshape`, `squeeze` |
| `text.dfy` | `Text` | `str()` of integers, `lstrip`, `split` and `join` with a one-character separator |
| `encoding.dfy` | `Encoding` | the numeral encoding, its inverse, and the string keys |
| `windows.dfy` | `Windows` | a part as a window: one index span per axis, and numpy slicing under a window |
| `partition.dfy` | `Partitioning` | the partition recursions on windows, with coverage, ordering and counting lemmas |
| `stages.dfy` | `Stages` | the stages on arrays, each proved equal to slicing the array under the windows; lookup; aggregate |
| `bdm.dfy` | `Pipeline` | the `BDM` configuration and `complexity` |

Design choices:

- An array is `Vec(cells)` or `Mat(rows)`. It is well formed when a matrix
  has at least one row and all rows have the same length.
- The generators become functions that return the whole sequence they
  would yield.
- The partition recursion is stated on windows: one `Span(start, len)` per
  axis. It is then proved equal to the recursion the source runs on sliced
  arrays (`Stages.PartArrayWindows`, `Stages.ShrinkArrayWindows`).
- The loops of `encode_sequence`, `decode_sequence` and `aggregate` are
  methods with loop invariants, proved against specification functions
  (`Encoding.Numeral`, `Encoding.Decode`, `Stages.Bdm`).
- The reference table is a `map<string, real>` passed in by the caller.
- numpy's floating-point `log2` is a parameter `log2: nat -> real`. Lemmas
  that need `log2(1) == 0` require it.

Where the code and its documentation disagree, the model follows the code:

- `decode_sequence` never fails. A code whose digits outnumber
  `min_length` is returned unpadded. Only `decode_array` raises for it
  (bdm/encoding.py:98-101, 161-162).
- The test at test/test_encoding.py:20 expects `decode_sequence(20, 4, 5)`
  to be `[0, 1, 1, 0, 0]`. The code returns `[0, 0, 1, 1, 0]`, because
  20 = 1·16 + 1·4. `[0, 1, 1, 0, 0]` is the numeral 80. The expectation is the
  error, not the decoder, and `Encoding.PaddedDecodeExample` states both
  facts.
- A 1-D key made only of zeros, such as `"000000000000"`, strips to the
  empty string. Its lookup therefore needs `""` in the table, whatever the
  table holds for the key itself (bdm/stages.py:198).
- `bdm/bdm.py:12` imports `partition_ignore_leftover`, which `bdm/stages.py`
  does not define. The complexity pipeline uses `partition_ignore` in its
  place.

## Model

| member | source | states |
|---|---|---|
| Arrays.Squeeze | bdm/stages.py:65-66 | numpy `squeeze` drops every axis of length 1 and keeps every other axis and the cells in row-major order: an array with no axis of length 1 is unchanged, and a matrix with exactly one such axis becomes the 1-D array of its cells. It has no result only for a single cell, which numpy squeezes to 0 dimensions. |
| Arrays.ReshapeRavel | bdm/encoding.py:142 | raveling an array and reshaping the cells to its shape gives the array back |
| Arrays.RavelReshape | bdm/encoding.py:163 | reshaping a cell sequence and raveling the result gives the sequence back |
| Text.LStrip | bdm/stages.py:198 | `lstrip` of one character: the result does not start with it, and the input is that character repeated, then the result |
| Text.Decimal | bdm/encoding.py:47 | `str()` of an int: a minus sign exactly for negatives, followed by a numeral (digits, no leading zero except "0") whose decimal value is the magnitude; a single digit for 0..9 |
| Text.NatDecimal | bdm/encoding.py:47 | the printed numeral of n is a numeral without leading zeros whose decimal value is n; one digit exactly below 10 |
| Text.NatDecimalOfValue | bdm/encoding.py:47 | every numeral is the one printed for its value, so the printed form of an int is unique |
| Text.Split | bdm/encoding.py:26-27 | `str.split` on one character: at least one piece, no piece holds the separator, and two or more pieces exactly when the string holds it |
| Text.JoinSplit | bdm/encoding.py:26-27 | joining the pieces of a split with the same separator gives the string back |
| Text.SplitJoin | bdm/encoding.py:48 | splitting a join of separator-free pieces gives the pieces back |
| Encoding.Digits | bdm/encoding.py:93-97 | the shortest base-b digits of a code: all in [0, b), empty exactly for a code <= 0, a non-zero leading digit, and their numeral is the code |
| Encoding.Decode | bdm/encoding.py:93-101 | decode_sequence's result: digits in [0, b); exactly min_length long when min_length is truthy and longer than the shortest form, else the shortest length; its numeral is the code |
| Encoding.NumeralBounds | bdm/encoding.py:73-77 | the code (`Numeral`) of a sequence with symbols in [0, b) lies in [0, b^len) |
| Encoding.DigitsOfNumeral | bdm/encoding.py:73-97 | decoding the code of a sequence gives the sequence with its leading zeros stripped |
| Encoding.DecodeOfEncode | bdm/encoding.py:3-5 | round trip: decoding the code of a non-empty sequence, padded to its length, gives the sequence |
| Encoding.EncodeOfDecode | bdm/encoding.py:3-5 | round trip: the code of a decoded non-negative code is the code, whatever the padding |
| Encoding.DecodeShortest | bdm/encoding.py:93-98 | without padding, decoding gives the shortest form: empty exactly for code 0, else with a non-zero first digit |
| Encoding.DigitsLength | bdm/encoding.py:159-162 | the shortest form of c has at most n digits exactly when c < b^n |
| Encoding.EncodeSequence | bdm/encoding.py:62-77 | an empty array encodes to 0 before any check. Otherwise it succeeds iff the array is 1-D with every symbol in [0, base), and the result is the numeral. A matrix fails as not 1-D, a negative symbol as negative, and any other symbol as too large. |
| Encoding.DecodeSequence | bdm/encoding.py:93-101 | the divmod loop and the padding loop compute `Decode` |
| Encoding.EncodeArray | bdm/encoding.py:142-143 | succeeds iff every raveled symbol is in [0, base), with the numeral of the row-major cells; otherwise the error for a negative or a too large symbol |
| Encoding.DecodeArray | bdm/encoding.py:159-164 | for any 1-D shape, zero length included, and any matrix shape with at least one row: fails with the code and shape iff the code needs more digits than the shape has cells (with no cells, iff the code is positive). Otherwise the result has that shape, and its row-major cells are the code decoded with that many digits. |
| Encoding.RowStringOfDigits | bdm/encoding.py:47 | `str()` of each symbol of a row of decimal digits, joined, is one digit character per symbol, in order (`DigitString`) |
| Encoding.ParseDigits | bdm/encoding.py:27-34 | the integer cast of a string's characters succeeds iff all are digits. Its digits then print back to the string; otherwise the failure names a non-digit of the string. |
| Encoding.ParseRows | bdm/encoding.py:27-34 | every piece parses iff all pieces are digit strings, and each parsed row prints back to its piece |
| Encoding.ArrayFromString | bdm/encoding.py:26-35 | succeeds iff every character except the separator is a digit and, when the separator occurs, all pieces are as long as the first. The result is 2-D exactly when the separator occurs, and string_from_array gives the string back. |
| Encoding.MatrixString | bdm/encoding.py:47-48 | the string (`StringFromArray`) of a matrix of digits is its rows' digit strings joined by the separator |
| Encoding.StringRoundTripVector | bdm/encoding.py:26-49 | array_from_string inverts string_from_array on a 1-D array of digits |
| Encoding.StringRoundTripMatrix | bdm/encoding.py:26-49 | array_from_string inverts string_from_array on a matrix of digits with at least two rows |
| Encoding.StringRoundTripSingleRow | bdm/encoding.py:26-49 | a single-row matrix comes back as a 1-D array |
| Encoding.EncodeString | bdm/encoding.py:113 | fails as array_from_string fails; otherwise succeeds iff the parsed symbols are in [0, base), with the numeral of the parsed array |
| Encoding.DecodeString | bdm/encoding.py:128 | fails as decode_array fails; otherwise the key string of the decoded array of that shape |
| Encoding.NumeralExamples | test/test_encoding.py:8-10 | [1, 0, 0, 1] is 9 in base 2 and 28 in base 3 |
| Encoding.DecodeExamples | test/test_encoding.py:17-19 | 0, 9 and 28 decode to [], [1, 0, 0, 1] and [1, 0, 0, 1] |
| Encoding.PaddedDecodeExample | test/test_encoding.py:20 | 20 in base 4 padded to 5 digits is [0, 0, 1, 1, 0]; the test's [0, 1, 1, 0, 0] is 80 |
| Encoding.StringExamples | test/test_utils.py:8-17 | the empty array and the string "", and the 3 x 4 matrix and "0000-1000-0101", map to each other |
| Windows.Extract | bdm/stages.py:79-83 | slicing under a window gives a well-formed array with the dataset's dimensionality and the window's shape |
| Windows.ExtractCells | bdm/stages.py:79-83 | the part's cell at idx is the dataset's cell at idx shifted by the window's corner, and that index lies inside the dataset |
| Windows.ExtractExtract | bdm/stages.py:83 | slicing a slice is slicing the array under the moved window |
| Windows.CutConcat | bdm/stages.py:83 | slicing under the windows of a concatenation concatenates the parts |
| Partitioning.Offsets | bdm/stages.py:75-78 | the offsets at which an axis is sliced lie inside the axis and strictly increase |
| Partitioning.FirstLong | bdm/stages.py:73-76 | the axis sliced is the first one longer than the block width; all axes before it fit |
| Partitioning.PartsSmall | bdm/stages.py:70-71 | a window that fits the block on every axis is yielded once, as it is |
| Partitioning.PartsMembers | bdm/stages.py:69-84 | a window is yielded by the partition recursion (`Parts`) iff it is placed: on each axis it is the whole axis when that fits, or a slice at a range offset that is cut to the width |
| Partitioning.PartsInside | bdm/stages.py:69-84 | every part lies inside the dataset and is at most the block width on every axis |
| Partitioning.SlidingWindows | bdm/stages.py:75-78 | with shift > 0, on every axis longer than the width, a part is exactly the width long. It starts a multiple of shift after the axis start, and at most n - width after it. |
| Partitioning.PartsCover | bdm/stages.py:73-84 | with shift <= 0, every index of the dataset lies in exactly one part and no other index lies in any part |
| Partitioning.PartsOrdered | bdm/stages.py:73-84 | the parts come in order: the first sliced axis varies slowest |
| Partitioning.KeepShape | bdm/stages.py:116-118 | keeping the windows of one shape keeps exactly those |
| Partitioning.IgnoreMembers | bdm/stages.py:116-118 | partition_ignore's windows are the placed windows of the whole block shape, in order, and each index lies in at most one |
| Partitioning.IgnoreCount | bdm/stages.py:116-118 | the number of whole blocks is the product over the axes of length divided by width |
| Partitioning.MinOf | bdm/stages.py:158 | `min(part.shape)` is at most every dimension and is one of them |
| Partitioning.ShapeBelow | bdm/stages.py:155-158 | a part that fits the block but is not the whole block has a dimension below the width, so the recursion narrows |
| Partitioning.ShrinkShapes | bdm/stages.py:154-161 | every window of partition_shrink's recursion (`Shrink`) lies inside the dataset and is square, with the block width or a width in [min_width, width) |
| Partitioning.ShrinkDisjoint | bdm/stages.py:154-161 | no index lies in two windows of partition_shrink |
| Partitioning.ShrinkMoved | bdm/stages.py:161 | shrinking a window at a moved corner moves the result |
| Partitioning.PartsExample | bdm/stages.py:58-61 | a 3 x 3 window with blocks of 2 is cut into 2 x 2, 2 x 1, 1 x 2 and 1 x 1, in that order |
| Partitioning.IgnoreExample | test/test_stages.py:21-23 | a 5 x 5 window keeps four whole 2 x 2 windows |
| Partitioning.ShrinkExample | bdm/stages.py:145-152 | a 5 x 5 window with blocks of 3 and min_width 2 gives a 3 x 3 and three 2 x 2 windows |
| Stages.Conformed | bdm/stages.py:65-68 | the dataset is kept when its dimensionality matches the block shape. Otherwise it succeeds exactly when the squeezed dataset exists and has the block's dimensionality, and then it is the squeezed dataset. The cells are unchanged. |
| Stages.PartArrayWindows | bdm/stages.py:69-84 | the source's recursion on sliced arrays (`PartArray`) yields the array sliced under each window of `Parts`, in order |
| Stages.Partition | bdm/stages.py:63-84 | fails for an asymmetric shape, and for a dataset that does not conform even after squeezing. Otherwise every part has the block's dimensionality and each dimension is in [1, width], or 0 for an empty axis. |
| Stages.PartitionWindows | bdm/stages.py:69-84 | partition's parts are the conformed dataset sliced under `Parts` of its whole window |
| Stages.PartitionSmall | bdm/stages.py:70-71 | a dataset no longer than the width on every axis is yielded once |
| Stages.KeepParts | bdm/stages.py:116-118 | keeps exactly the parts whose shape equals the block shape |
| Stages.PartitionIgnore | bdm/stages.py:116-118 | fails exactly as partition fails; otherwise every part has the block shape |
| Stages.KeepCut | bdm/stages.py:116-118 | keeping the parts of a shape is slicing under the windows of that shape, in order |
| Stages.PartitionIgnoreWindows | bdm/stages.py:116-118 | partition_ignore's parts are the dataset sliced under `IgnoreParts` |
| Stages.PartitionIgnoreCount | bdm/stages.py:116-118 | it yields the product over the axes of length divided by width parts |
| Stages.ShrinkArrayWindows | bdm/stages.py:154-161 | the source's shrinking recursion on arrays (`ShrinkArray`) yields the array sliced under `Shrink`'s windows |
| Stages.PartitionShrink | bdm/stages.py:154-161 | fails exactly as partition fails. Otherwise every part is square with the block's dimensionality, and its width is the block width or in [min_width, width). |
| Stages.PartitionShrinkWindows | bdm/stages.py:154-161 | partition_shrink's parts are the dataset sliced under `Shrink` |
| Stages.PartitionExample | bdm/stages.py:58-61 | a 3 x 3 constant matrix with shape (2, 2) gives a 2 x 2, a 2 x 1, a 1 x 2 and a 1 x 1 part |
| Stages.PartitionIgnoreExample | bdm/stages.py:112-114 | the same matrix keeps only the 2 x 2 block |
| Stages.PartitionIgnoreTestExample | test/test_stages.py:21-23 | a 5 x 5 constant matrix keeps four 2 x 2 blocks |
| Stages.PartitionShrinkExample | bdm/stages.py:145-152 | a 5 x 5 constant matrix, shape (3, 3), min_width 2: one 3 x 3 and three 2 x 2 parts |
| Stages.KeyValue | bdm/stages.py:194-200 | a key with '-' resolves iff it is in the table. Any other key resolves iff its zero-stripped form is, and then takes its own value when present. A failure names the key. |
| Stages.LookupPairs | bdm/stages.py:192-201 | lookup (`Lookup`) succeeds iff every part's key resolves, and then gives one (key, value) per part, in order |
| Stages.LookupError | bdm/stages.py:192-201 | a failed lookup names the key of the first part whose key does not resolve; every earlier key resolves |
| Stages.EagerDefault | bdm/stages.py:198 | "01" in the table does not help when "1" is absent: the eager default fails first |
| Stages.KeyParsesBack | bdm/stages.py:193 | a part's key (`Key`, string_from_array with '-') of decimal symbols parses back with array_from_string to the part; a single-row matrix comes back 1-D |
| Stages.KeysDistinct | bdm/stages.py:193 | two decimal parts, neither a single-row matrix, have the same key iff they are the same part |
| Stages.PlainKey | bdm/stages.py:195-198 | a key with '-' or without a leading zero is looked up as it is |
| Stages.KeyExample | test/test_stages.py:30 | the key of a 4 x 4 block of ones is "1111-1111-1111-1111" |
| Stages.LookupExample | test/test_stages.py:30 | that block is found under its key with the table's value |
| Stages.Distinct | bdm/stages.py:227-229 | the Counter's keys: exactly the pairs present, each once |
| Stages.DistinctOrder | bdm/stages.py:227-231 | the Counter's keys come in the order of their first occurrence in the pairs |
| Stages.Count | bdm/stages.py:227-229 | the Counter loop: its keys are exactly the pairs present, listed once each in first-seen order, and each count is the pair's multiplicity |
| Stages.Aggregate | bdm/stages.py:227-234 | the counting loop and the summing loop compute, over the distinct pairs, the sum of value + log2(count) |
| Stages.BdmEmpty | bdm/stages.py:230 | no pairs give 0 |
| Stages.BdmSingle | bdm/stages.py:231-233 | a single pair gives exactly its value when log2(1) = 0 |
| Stages.BdmRepeat | bdm/stages.py:231-233 | n >= 1 identical pairs give value + log2(n) |
| Stages.MultiplicitiesSum | bdm/stages.py:227-229 | the counts add up to the number of pairs |
| Stages.BdmPermutation | bdm/stages.py:227-234 | the BDM sum (`Bdm`) depends only on the multiset of pairs, not their order |
| Stages.TermsPermutation | bdm/stages.py:231-233 | summing the terms over any duplicate-free listing of the same pairs gives the same total |
| Pipeline.DefaultShape | bdm/bdm.py:16-19 | only dimensionalities 1 and 2 have a default block shape, with one axis per dimension, symmetric and of positive width |
| Pipeline.DefaultName | bdm/bdm.py:20-23 | only dimensionalities 1 and 2 have a default dataset name |
| Pipeline.Configure | bdm/bdm.py:59-65 | a given shape or name is kept. A missing one is the dimensionality's default (`DefaultShape`, `DefaultName`), and a dimensionality without one fails. A default shape has one symmetric axis per dimension. |
| Pipeline.ConfigureDefaults | bdm/bdm.py:16-23 | BDM(ndim=1) gets shape (12,) and 'ctm-bin-1d.pickle', BDM(ndim=2) gets (4, 4) and 'ctm-bin-2d.pickle', and ndim 3 without a shape fails even when a name is given |
| Pipeline.ComplexityError | bdm/bdm.py:85-88 | complexity (`ComplexityOf`) fails with partition_ignore's error when that fails. Otherwise it fails iff some block's key is missing, and the error names a block's key. |
| Pipeline.Complexity | bdm/bdm.py:85-88 | the method chaining the stages, with the aggregate loop, computes `ComplexityOf` |
| Pipeline.ComplexityTooSmall | bdm/bdm.py:85-88 | a dataset shorter than the block on some axis has complexity 0 for any table |
| Pipeline.LookupRepeat | bdm/stages.py:192-201 | n copies of one part give n copies of its pair |
| Pipeline.ComplexityRepeat | bdm/bdm.py:85-88 | a dataset whose whole blocks are n >= 1 copies of one part has complexity value + log2(n) |
| Pipeline.OnesValue | test/test_stages.py:30 | a 2 x 2 block of ones resolves to the table's value for "11-11" |

## Left out

- Loading the CTM table (bdm/bdm.py:66-67, pickle and package resources): the table is a parameter.
- Custom stage functions passed to the `BDM` constructor (bdm/bdm.py:60-61, 68-70): `complexity` runs the default stages.
- The `dtype` check of `encode_sequence` (bdm/encoding.py:66-67): symbols are integers by type.
- The `cast_to` option of `array_from_string` (bdm/encoding.py:33-34): the cast to int is always done.
- The `**kwds` of `encode_array` and `decode_array` (non-row-major orders): row-major only.
- Arrays of three or more dimensions: only 1-D and 2-D arrays, the dimensionalities `BDM` configures, are modelled.
- A matrix with zero rows cannot be represented. A matrix with empty rows can.
- Encoding.DecodeArray (and Encoding.DecodeString): a matrix shape must have at least one row, because a zero-row matrix cannot be represented; decode_array would return an empty (0, k) array for code 0.
- Encoding.DecodeSequence: requires base >= 2. Base 1 loops forever and base 0 divides by zero.
- Encoding.ArrayFromString: the separator is a single character, and only the ASCII digits '0'..'9' are modelled as castable; numpy's int cast also accepts other Unicode decimal digits.
- Encoding.ParseDigits (and Encoding.ParseRows, Encoding.EncodeString): only the ASCII digits '0'..'9' parse; a string holding another Unicode decimal digit fails here where numpy's int cast would succeed.
- Encoding.EncodeSequence (and Encoding.EncodeArray, Encoding.EncodeString): codes are unbounded integers. numpy's int64 arithmetic overflows once a code reaches 2^63, so the model's codes agree with the source only below 2^63. The configured 12-cell and 4 x 4 blocks in base 2 or 4 stay far below it.
- Encoding.StringFromArray: symbols outside 0..9 print as `str()` does. The round trips are stated for digits only.
- Partitioning.Parts: requires a block width >= 1. With shift <= 0 (the shift of partition_ignore, partition_shrink and complexity), a negative width yields no parts at all, because no axis fits and `range(0, n, w)` is empty, so a negative block shape gives complexity 0 without an error. Width 0 yields a dataset whose axes are all empty once, and otherwise fails in `range` with step 0. With shift > 0, width 0 yields empty slices, and a negative width gives slice stops that numpy counts from the end of the axis.
- Stages.PartitionShrink: requires min_width >= 1. A min_width <= 0 lets a part whose smallest axis is empty recurse with width 0, which fails in `range` when the part also has a non-empty axis. For a dataset with no empty axis, no part has an empty axis, and the parts are the same as with min_width 1.
- Stages.PartitionIgnore: the block shape is compared with the part shape as a sequence. The source compares tuples, so a shape given as a list keeps nothing.
- Stages.Lookup: the pairs yielded before a missing key raises are not modelled. The result is all pairs or the error.
- Stages.Aggregate: `log2` is a parameter and values are reals. Floating-point rounding and concrete BDM numbers are not modelled.
- Partitioning.PartsCover: coverage is stated per index (each index lies in exactly one part). The corollary that the part sizes add up to the dataset size is not stated separately.
- The test's 5 x 5 matrix of ones (test/test_stages.py:21-23, 30) is not stated as one complexity lemma. `Stages.PartitionIgnoreTestExample` gives its four 2 x 2 blocks, `Pipeline.OnesValue` their value, and `Pipeline.ComplexityRepeat` the value + log2(n) of n equal blocks.
- The 1-D docstring examples with the real table (bdm/stages.py:185-190, 219-225) need the table's values and floating-point log2.
- `bdm/utils.py` and `bdm/ctmdata/__init__.py` only list dataset files.
