/** Encoding of symbol sequences and arrays as integer codes (a base-`b`
    numeral, most significant digit first) and as canonical strings
    (digit runs joined by a separator). */
module Encoding {
  import opened Outcomes
  import opened Arrays
  import opened Text

  function Pow(b: int, n: nat): int {
    if n == 0 then 1 else b * Pow(b, n - 1)
  }

  /** Every symbol of `s` lies in [0, b). */
  predicate InBase(s: seq<int>, b: int) {
    forall i :: 0 <= i < |s| ==> 0 <= s[i] < b
  }

  predicate HasNegative(s: seq<int>) {
    exists i :: 0 <= i < |s| && s[i] < 0
  }

  /** The value of `s` read as a base-`b` numeral, most significant digit first. */
  function Numeral(s: seq<int>, b: int): int {
    if s == [] then 0 else Numeral(s[..|s| - 1], b) * b + s[|s| - 1]
  }

  /** The shortest base-`b` digit sequence of `c`, most significant first;
      empty when `c` is not positive. */
  function Digits(c: int, b: int): (r: seq<int>)
    requires b >= 2
    ensures InBase(r, b)
    ensures r == [] <==> c <= 0
    ensures r != [] ==> r[0] != 0
    ensures c >= 0 ==> Numeral(r, b) == c
    decreases if c > 0 then c else 0
  {
    if c <= 0 then []
    else
      var p := Digits(c / b, b);
      DigitsSnoc(p, c, b);
      p + [c % b]
  }

  /** Appending the remainder of `c` to the digits of its quotient gives
      digits of `c` again. */
  lemma DigitsSnoc(p: seq<int>, c: int, b: int)
    requires c > 0 && b >= 2
    requires InBase(p, b) && Numeral(p, b) == c / b && (p == [] <==> c / b <= 0) && (p != [] ==> p[0] != 0)
    ensures InBase(p + [c % b], b) && (p + [c % b])[0] != 0 && Numeral(p + [c % b], b) == c
  {
    DivMod(c, b);
    var r := p + [c % b];
    assert r[..|r| - 1] == p;
  }

  /** Python's divmod on a positive dividend and a base of at least 2. */
  lemma DivMod(c: int, b: int)
    requires c > 0 && b >= 2
    ensures c == (c / b) * b + c % b && 0 <= c % b < b
    ensures 0 <= c / b < c
    ensures c / b == 0 ==> c % b == c
  {
  }

  lemma MulMonotone(a: int, c: int, b: int)
    requires b >= 0
    ensures a <= c ==> a * b <= c * b
  {
    assert c * b - a * b == (c - a) * b;
  }

  /** Left-pads `s` with zeros to `minLength` when `minLength` is non-zero
      (Python-truthy) and longer than `s`. */
  function ZeroPad(s: seq<int>, minLength: int): seq<int> {
    if minLength != 0 && |s| < minLength then Repeat(0, minLength - |s|) + s else s
  }

  /** What decode_sequence returns; `minLength` 0 stands for both None and 0,
      which the source treats alike. */
  function Decode(c: int, b: int, minLength: int): (r: seq<int>)
    requires b >= 2
    ensures InBase(r, b)
    ensures |r| == if minLength != 0 && |Digits(c, b)| < minLength then minLength else |Digits(c, b)|
    ensures c >= 0 ==> Numeral(r, b) == c
  {
    var d := Digits(c, b);
    NumeralLeadingZeros(if minLength != 0 && |d| < minLength then minLength - |d| else 0, d, b);
    ZeroPad(d, minLength)
  }

  /** Prepending a digit adds it times the place value of its position. */
  lemma {:induction false} NumeralCons(d: int, t: seq<int>, b: int)
    ensures Numeral([d] + t, b) == d * Pow(b, |t|) + Numeral(t, b)
  {
    if t != [] {
      var s := [d] + t;
      var t' := t[..|t| - 1];
      assert s[..|s| - 1] == [d] + t';
      NumeralCons(d, t', b);
      calc {
        Numeral(s, b);
        Numeral([d] + t', b) * b + t[|t| - 1];
        (d * Pow(b, |t'|) + Numeral(t', b)) * b + t[|t| - 1];
        d * (b * Pow(b, |t'|)) + (Numeral(t', b) * b + t[|t| - 1]);
        d * Pow(b, |t|) + Numeral(t, b);
      }
    }
  }

  /** The suffix one symbol longer adds that symbol at place value b^i. */
  lemma NumeralSuffix(v: seq<int>, i: nat, b: int)
    requires i < |v|
    ensures Numeral(v[|v| - 1 - i..], b) == v[|v| - 1 - i] * Pow(b, i) + Numeral(v[|v| - i..], b)
  {
    assert v[|v| - 1 - i..] == [v[|v| - 1 - i]] + v[|v| - i..];
    NumeralCons(v[|v| - 1 - i], v[|v| - i..], b);
  }

  /** Leading zeros do not change the value of a numeral. */
  lemma {:induction false} NumeralLeadingZeros(k: nat, s: seq<int>, b: int)
    ensures Numeral(Repeat(0, k) + s, b) == Numeral(s, b)
  {
    if k > 0 {
      var t := Repeat(0, k - 1) + s;
      NumeralLeadingZeros(k - 1, s, b);
      assert Repeat(0, k) + s == [0] + t;
      NumeralCons(0, t, b);
      calc {
        Numeral(Repeat(0, k) + s, b);
        Numeral([0] + t, b);
        0 * Pow(b, |t|) + Numeral(t, b);
        Numeral(s, b);
      }
    } else {
      assert Repeat(0, k) + s == s;
    }
  }

  /** A numeral of `n` digits in base `b` lies in [0, b^n). */
  lemma {:induction false} NumeralBounds(s: seq<int>, b: int)
    requires InBase(s, b)
    ensures 0 <= Numeral(s, b) < Pow(b, |s|)
  {
    if s != [] {
      var p := s[..|s| - 1];
      assert InBase(p, b);
      NumeralBounds(p, b);
      BoundStep(Numeral(p, b), Pow(b, |p|), s[|s| - 1], b);
    }
  }

  /** A numeral in [0, P) extended by one digit lies in [0, b * P). */
  lemma BoundStep(q: int, P: int, d: int, b: int)
    requires 0 <= q < P && 0 <= d < b
    ensures 0 <= q * b + d < b * P
  {
    MulMonotone(q, P - 1, b);
    MulMonotone(0, q, b);
    assert (P - 1) * b == b * P - b;
  }

  /** The unique quotient and remainder of `q * b + d` by `b`. */
  lemma DivModSplit(q: int, d: int, b: int)
    requires b >= 1 && 0 <= d < b
    ensures (q * b + d) / b == q && (q * b + d) % b == d
  {
    var a := q * b + d;
    var q', d' := a / b, a % b;
    assert a == q' * b + d';
    assert (q - q') * b == d' - d;
    MulMonotone(1, q - q', b);
    MulMonotone(1, q' - q, b);
  }

  /** The shortest digits of an encoded sequence are the sequence without its
      leading zeros. */
  lemma {:induction false} DigitsOfNumeral(s: seq<int>, b: int)
    requires b >= 2 && InBase(s, b)
    ensures Digits(Numeral(s, b), b) == LStrip(s, 0)
  {
    if s != [] {
      var p := s[..|s| - 1];
      var d := s[|s| - 1];
      assert s == p + [d];
      DigitsOfNumeral(p, b);
      DigitsOfNumeralSnoc(p, d, b);
    }
  }

  lemma DigitsOfNumeralSnoc(p: seq<int>, d: int, b: int)
    requires b >= 2 && InBase(p, b) && 0 <= d < b
    requires Digits(Numeral(p, b), b) == LStrip(p, 0)
    ensures Digits(Numeral(p + [d], b), b) == LStrip(p + [d], 0)
  {
    var s := p + [d];
    assert s[..|s| - 1] == p;
    var q := Numeral(p, b);
    var c := Numeral(s, b);
    assert c == q * b + d;
    NumeralBounds(p, b);
    LStripSnoc(p, d);
    if c > 0 {
      DigitsSnocPositive(LStrip(p, 0), q, d, b, c);
    } else {
      SnocZero(q, d, b, c);
    }
  }

  /** With the digits `t` of q, a positive q * b + d has the digits t + [d]. */
  lemma DigitsSnocPositive(t: seq<int>, q: int, d: int, b: int, c: int)
    requires b >= 2 && 0 <= d < b && q >= 0 && c == q * b + d && c > 0
    requires Digits(q, b) == t
    ensures Digits(c, b) == if t == [] && d == 0 then [] else t + [d]
  {
    DivModSplit(q, d, b);
    DigitsStep(c, b);
  }

  /** q * b + d is not positive only when both are zero. */
  lemma SnocZero(q: int, d: int, b: int, c: int)
    requires b >= 2 && 0 <= d < b && q >= 0 && c == q * b + d && c <= 0
    ensures q == 0 && d == 0 && c == 0
  {
    MulMonotone(1, q, b);
  }

  /** Stripping leading zeros from a sequence with one more digit at the end. */
  lemma {:induction false} LStripSnoc(p: seq<int>, d: int)
    ensures LStrip(p + [d], 0) == if LStrip(p, 0) == [] && d == 0 then [] else LStrip(p, 0) + [d]
  {
    if p != [] {
      assert (p + [d])[1..] == p[1..] + [d];
      if p[0] == 0 {
        LStripSnoc(p[1..], d);
      }
    }
  }

  /** A code needs at most `n` digits exactly when it is below b^n. */
  lemma {:induction false} DigitsLength(c: int, b: int, n: nat)
    requires b >= 2 && c >= 0
    ensures |Digits(c, b)| <= n <==> c < Pow(b, n)
    decreases c
  {
    PowPositive(b, n);
    if c > 0 {
      var q := c / b;
      assert |Digits(c, b)| == |Digits(q, b)| + 1;
      if n > 0 {
        DivMod(c, b);
        DigitsLength(q, b, n - 1);
        PowPositive(b, n - 1);
        QuotientBelow(c, b, Pow(b, n - 1));
      }
    }
  }

  /** The quotient of `c` by `b` is below `P` exactly when `c` is below P * b. */
  lemma QuotientBelow(c: int, b: int, P: int)
    requires c > 0 && b >= 2 && P >= 1
    ensures c / b < P <==> c < b * P
  {
    DivMod(c, b);
    var q := c / b;
    MulMonotone(q, P - 1, b);
    MulMonotone(P, q, b);
  }

  lemma {:induction false} PowPositive(b: int, n: nat)
    requires b >= 1
    ensures Pow(b, n) >= 1
  {
    if n > 0 {
      PowPositive(b, n - 1);
      assert b * Pow(b, n - 1) >= Pow(b, n - 1);
    }
  }

  /** Round trip: decoding the code of a non-empty sequence, padded to its
      length, gives the sequence back. */
  lemma DecodeOfEncode(s: seq<int>, b: int)
    requires b >= 2 && InBase(s, b) && |s| > 0
    ensures Decode(Numeral(s, b), b, |s|) == s
  {
    DigitsOfNumeral(s, b);
    var r := LStrip(s, 0);
    assert s == Repeat(0, |s| - |r|) + r;
  }

  /** Round trip: encoding a decoded non-negative code gives the code back. */
  lemma EncodeOfDecode(c: int, b: int, minLength: int)
    requires b >= 2 && c >= 0
    ensures InBase(Decode(c, b, minLength), b)
    ensures Numeral(Decode(c, b, minLength), b) == c
  {
  }

  /** Decoding emits the shortest digit sequence unless padding is asked for:
      its first digit is non-zero, and code 0 gives the empty sequence. */
  lemma DecodeShortest(c: int, b: int, minLength: int)
    requires b >= 2
    requires minLength == 0 || |Digits(c, b)| >= minLength
    ensures Decode(c, b, minLength) == Digits(c, b)
    ensures c <= 0 <==> Decode(c, b, minLength) == []
    ensures c > 0 ==> Decode(c, b, minLength)[0] != 0
  {
  }

  /** encode_sequence: the code of a 1-D symbol sequence. An empty array
      encodes to 0 before any check; then a 2-D array, a negative symbol and
      a symbol not below the base are refused, in that order. */
  method EncodeSequence(x: Array, base: int) returns (r: Result<int>)
    ensures r.Ok? <==> |Ravel(x)| == 0 || (x.Vec? && InBase(x.cells, base))
    ensures r.Ok? ==> r.value == Numeral(Ravel(x), base)
    ensures r.Err? && x.Mat? ==> r.error == NotOneDimensional
    ensures r.Err? && x.Vec? ==>
      r.error == if HasNegative(x.cells) then NegativeSymbol else SymbolNotBelowBase(base)
  {
    if |Ravel(x)| == 0 {
      return Ok(0);
    }
    if x.Mat? {
      return Err(NotOneDimensional);
    }
    var v := x.cells;
    if exists i | 0 <= i < |v| :: v[i] < 0 {
      return Err(NegativeSymbol);
    }
    if exists i | 0 <= i < |v| :: v[i] >= base {
      return Err(SymbolNotBelowBase(base));
    }
    assert InBase(v, base);
    var n := |v|;
    var code := 0;
    // the symbols are read from the last, the i-th from the end weighing base^i
    for i := 0 to n
      invariant code == Numeral(v[n - i..], base)
    {
      var d := v[n - 1 - i];
      NumeralSuffix(v, i, base);
      if d > 0 {
        code := code + d * Pow(base, i);
      } else {
        assert d == 0;
      }
    }
    assert v[0..] == v;
    return Ok(code);
  }

  /** decode_sequence: divides the code down to its base-`base` digits, then
      left-pads them with zeros up to `minLength`. */
  method DecodeSequence(code: int, base: int, minLength: int) returns (bits: seq<int>)
    requires base >= 2
    ensures bits == Decode(code, base, minLength)
  {
    bits := [];
    var c := code;
    while c > 0
      invariant Digits(code, base) == Digits(c, base) + bits
      decreases c
    {
      var q, rest := c / base, c % base;
      DigitsStep(c, base);
      DivMod(c, base);
      c := q;
      bits := [rest] + bits;
    }
    ghost var d := bits;
    assert d == Digits(code, base);
    var n := |bits|;
    if minLength != 0 && n < minLength {
      for j := 0 to minLength - n
        invariant bits == Repeat(0, j) + d
      {
        PadStep(j, d);
        bits := [0] + bits;
      }
      assert bits == Repeat(0, minLength - |d|) + d;
    }
    assert bits == ZeroPad(d, minLength);
  }

  /** One more padding zero goes in front. */
  lemma PadStep(j: nat, d: seq<int>)
    ensures Repeat(0, j + 1) + d == [0] + (Repeat(0, j) + d)
  {
    assert Repeat(0, j + 1) == [0] + Repeat(0, j);
  }

  /** One division step peels off the last digit. */
  lemma DigitsStep(c: int, b: int)
    requires c > 0 && b >= 2
    ensures Digits(c, b) == Digits(c / b, b) + [c % b]
  {
  }

  /** encode_array: the code of an array raveled in row-major order. */
  method EncodeArray(x: Array, base: int) returns (r: Result<int>)
    ensures r.Ok? <==> InBase(Ravel(x), base)
    ensures r.Ok? ==> r.value == Numeral(Ravel(x), base)
    ensures r.Err? ==>
      r.error == if HasNegative(Ravel(x)) then NegativeSymbol else SymbolNotBelowBase(base)
  {
    r := EncodeSequence(Vec(Ravel(x)), base);
  }

  /** decode_array: decodes `code` padded to the number of cells of `shape`
      and reshapes it; a code with more digits than cells is refused. */
  method DecodeArray(code: int, shape: seq<nat>, base: int) returns (r: Result<Array>)
    requires base >= 2
    requires |shape| == 1 || |shape| == 2
    requires |shape| == 2 ==> shape[0] >= 1
    ensures r.Ok? <==> code < Pow(base, Product(shape))
    ensures r.Err? ==> r.error == CodeTooLong(code, shape)
    ensures r.Ok? ==> WellFormed(r.value) && Shape(r.value) == shape
    ensures r.Ok? ==> Ravel(r.value) == Decode(code, base, Product(shape))
  {
    var length := Product(shape);
    PowPositive(base, length);
    if code >= 0 {
      DigitsLength(code, base, length);
    }
    var s := DecodeSequence(code, base, length);
    if |s| > length {
      return Err(CodeTooLong(code, shape));
    }
    RavelReshape(s, shape);
    return Ok(Reshape(s, shape));
  }

  /** ''.join of the str() of each symbol of a row. */
  function RowString(v: seq<int>): string {
    if v == [] then "" else Decimal(v[0]) + RowString(v[1..])
  }

  /** numpy keeps the joined rows in a fixed-width string array sized by the
      first row's string, so a longer later row is cut to that width. */
  function Truncate(s: string, width: nat): string {
    if |s| <= width then s else s[..width]
  }

  /** string_from_array: a 1-D array is its symbols' digits with no
      separator, a 2-D array its rows' digit strings joined by `sep`. */
  function StringFromArray(x: Array, sep: char): string
    requires WellFormed(x)
  {
    match x
    case Vec(v) => RowString(v)
    case Mat(rows) =>
      var width := |RowString(rows[0])|;
      Join(seq(|rows|, i requires 0 <= i < |rows| => Truncate(RowString(rows[i]), width)), sep)
  }

  /** The digit characters of a sequence of decimal digits. */
  function DigitString(v: seq<int>): (s: string)
    requires InBase(v, 10)
    ensures |s| == |v| && forall i :: 0 <= i < |v| ==> s[i] == DigitChar(v[i])
  {
    seq(|v|, i requires 0 <= i < |v| => DigitChar(v[i]))
  }

  /** A row of decimal digits is written one character per symbol. */
  lemma {:induction false} RowStringOfDigits(v: seq<int>)
    requires InBase(v, 10)
    ensures RowString(v) == DigitString(v)
  {
    if v != [] {
      RowStringOfDigits(v[1..]);
      assert DigitString(v) == [DigitChar(v[0])] + DigitString(v[1..]);
    }
  }

  /** The symbols of a string of digit characters; the cast to int fails on
      the first character that is not a digit. */
  function ParseDigits(s: string): (r: Result<seq<int>>)
    ensures r.Ok? <==> DigitsOnly(s)
    ensures r.Ok? ==> InBase(r.value, 10) && DigitString(r.value) == s
    ensures r.Err? ==> r.error.NotADigit? && r.error.c in s && !IsDigit(r.error.c)
  {
    if s == [] then Ok([])
    else
      DigitsOnlyCons(s);
      if !IsDigit(s[0]) then Err(NotADigit(s[0]))
      else
        match ParseDigits(s[1..])
        case Err(e) => Err(e)
        case Ok(t) =>
          DigitStringCons(s, t);
          Ok([DigitValue(s[0])] + t)
  }

  lemma DigitsOnlyCons(s: string)
    requires s != []
    ensures DigitsOnly(s) <==> IsDigit(s[0]) && DigitsOnly(s[1..])
  {
    if IsDigit(s[0]) && DigitsOnly(s[1..]) {
      assert forall i :: 1 <= i < |s| ==> s[i] == s[1..][i - 1];
    }
  }

  lemma DigitStringCons(s: string, t: seq<int>)
    requires s != [] && IsDigit(s[0]) && InBase(t, 10) && DigitString(t) == s[1..]
    ensures InBase([DigitValue(s[0])] + t, 10) && DigitString([DigitValue(s[0])] + t) == s
  {
    var v := [DigitValue(s[0])] + t;
    assert forall i :: 1 <= i < |v| ==> v[i] == t[i - 1];
    assert forall i :: 1 <= i < |s| ==> s[i] == s[1..][i - 1];
  }

  predicate DigitsOnly(s: string) {
    forall i :: 0 <= i < |s| ==> IsDigit(s[i])
  }

  predicate AllDigits(pieces: seq<string>) {
    forall i :: 0 <= i < |pieces| ==> DigitsOnly(pieces[i])
  }

  /** Every character other than `sep` is a digit. */
  predicate DigitsBesides(s: string, sep: char) {
    forall i :: 0 <= i < |s| && s[i] != sep ==> IsDigit(s[i])
  }

  lemma DigitsBesidesConcat(a: string, b: string, sep: char)
    ensures DigitsBesides(a + b, sep) <==> DigitsBesides(a, sep) && DigitsBesides(b, sep)
  {
    assert forall i :: 0 <= i < |a| ==> (a + b)[i] == a[i];
    assert forall i :: 0 <= i < |b| ==> (a + b)[|a| + i] == b[i];
    if DigitsBesides(a, sep) && DigitsBesides(b, sep) {
      forall i | 0 <= i < |a + b| && (a + b)[i] != sep
        ensures IsDigit((a + b)[i])
      {
        if i >= |a| {
          assert (a + b)[i] == b[i - |a|];
        }
      }
    }
  }

  /** The rows of symbols of a sequence of digit strings, failing on the
      first non-digit in row-major order. */
  function ParseRows(pieces: seq<string>): (r: Result<seq<seq<int>>>)
    ensures r.Ok? <==> AllDigits(pieces)
    ensures r.Ok? ==> |r.value| == |pieces|
    ensures r.Ok? ==> forall i :: 0 <= i < |pieces| ==> InBase(r.value[i], 10) && DigitString(r.value[i]) == pieces[i]
    ensures r.Err? ==> r.error.NotADigit? && !IsDigit(r.error.c)
  {
    if pieces == [] then Ok([])
    else
      match ParseDigits(pieces[0])
      case Err(e) => Err(e)
      case Ok(v) =>
        match ParseRows(pieces[1..])
        case Err(e) => Err(e)
        case Ok(rows) => Ok([v] + rows)
  }

  /** array_from_string: a string holding `sep` becomes a matrix of its
      separator-delimited pieces, any other string a sequence. */
  function ArrayFromString(s: string, sep: char): (r: Result<Array>)
    ensures r.Ok? <==>
      DigitsBesides(s, sep)
      && (sep in s ==> forall i :: 0 <= i < |Split(s, sep)| ==> |Split(s, sep)[i]| == |Split(s, sep)[0]|)
    ensures r.Ok? ==> WellFormed(r.value) && (r.value.Mat? <==> sep in s)
    ensures r.Ok? ==> StringFromArray(r.value, sep) == s
  {
    if sep in s then
      var pieces := Split(s, sep);
      JoinSplit(s, sep);
      PiecesChars(s, sep);
      if exists i :: 0 <= i < |pieces| && |pieces[i]| != |pieces[0]| then Err(RaggedRows)
      else
        match ParseRows(pieces)
        case Err(e) => Err(e)
        case Ok(rows) =>
          ghost var width := |RowString(rows[0])|;
          assert forall i :: 0 <= i < |rows| ==> RowString(rows[i]) == pieces[i] by {
            forall i | 0 <= i < |rows| {
              RowStringOfDigits(rows[i]);
            }
          }
          assert seq(|rows|, i requires 0 <= i < |rows| => Truncate(RowString(rows[i]), width)) == pieces;
          Ok(Mat(rows))
    else
      SplitWhole(s, sep);
      match ParseDigits(s)
      case Err(e) => Err(e)
      case Ok(v) =>
        RowStringOfDigits(v);
        Ok(Vec(v))
  }

  /** The non-separator characters of a string are those of its pieces. */
  lemma PiecesChars(s: string, sep: char)
    ensures AllDigits(Split(s, sep)) <==> DigitsBesides(s, sep)
  {
    JoinSplit(s, sep);
    JoinChars(Split(s, sep), sep);
  }

  lemma {:induction false} JoinChars(pieces: seq<string>, sep: char)
    requires forall i :: 0 <= i < |pieces| ==> sep !in pieces[i]
    ensures AllDigits(pieces) <==> DigitsBesides(Join(pieces, sep), sep)
  {
    if |pieces| >= 2 {
      var p := pieces[0];
      var rest := pieces[1..];
      JoinChars(rest, sep);
      assert AllDigits(pieces) <==> DigitsOnly(p) && AllDigits(rest) by {
        assert forall i :: 1 <= i < |pieces| ==> rest[i - 1] == pieces[i];
      }
      DigitsBesidesConcat(p, [sep], sep);
      DigitsBesidesConcat(p + [sep], Join(rest, sep), sep);
    }
  }

  /** Reading back the digit characters of a digit sequence gives it back. */
  lemma {:induction false} ParseDigitString(v: seq<int>)
    requires InBase(v, 10)
    ensures ParseDigits(DigitString(v)) == Ok(v)
  {
    if v != [] {
      var s := DigitString(v);
      ParseDigitString(v[1..]);
      assert s[1..] == DigitString(v[1..]);
      assert IsDigit(s[0]) && DigitValue(s[0]) == v[0];
      assert [v[0]] + v[1..] == v;
    }
  }

  lemma {:induction false} ParseDigitRows(rows: seq<seq<int>>)
    requires forall i :: 0 <= i < |rows| ==> InBase(rows[i], 10)
    ensures ParseRows(seq(|rows|, i requires 0 <= i < |rows| => DigitString(rows[i]))) == Ok(rows)
  {
    var pieces := seq(|rows|, i requires 0 <= i < |rows| => DigitString(rows[i]));
    if rows != [] {
      ParseDigitString(rows[0]);
      ParseDigitRows(rows[1..]);
      assert pieces[1..] == seq(|rows[1..]|, i requires 0 <= i < |rows[1..]| => DigitString(rows[1..][i]));
      assert pieces[0] == DigitString(rows[0]);
      assert ParseRows(pieces) == Ok([rows[0]] + rows[1..]);
      assert [rows[0]] + rows[1..] == rows;
    }
  }

  lemma {:induction false} SeparatorInJoin(pieces: seq<string>, sep: char)
    requires |pieces| >= 2
    ensures sep in Join(pieces, sep)
  {
    assert Join(pieces, sep)[|pieces[0]|] == sep;
  }

  /** A matrix of decimal digits is written as its rows' digit strings
      joined by the separator. */
  lemma MatrixString(rows: seq<seq<int>>, sep: char)
    requires WellFormed(Mat(rows))
    requires forall i :: 0 <= i < |rows| ==> InBase(rows[i], 10)
    ensures StringFromArray(Mat(rows), sep)
         == Join(seq(|rows|, i requires 0 <= i < |rows| => DigitString(rows[i])), sep)
  {
    forall i | 0 <= i < |rows| {
      RowStringOfDigits(rows[i]);
    }
    assert seq(|rows|, i requires 0 <= i < |rows| => Truncate(RowString(rows[i]), |RowString(rows[0])|))
        == seq(|rows|, i requires 0 <= i < |rows| => DigitString(rows[i]));
  }

  /** array_from_string inverts string_from_array on a 1-D array of decimal
      digits. */
  lemma StringRoundTripVector(v: seq<int>, sep: char)
    requires InBase(v, 10) && !IsDigit(sep)
    ensures ArrayFromString(StringFromArray(Vec(v), sep), sep) == Ok(Vec(v))
  {
    RowStringOfDigits(v);
    ParseDigitString(v);
  }

  /** array_from_string inverts string_from_array on a matrix of decimal
      digits with at least two rows. */
  lemma StringRoundTripMatrix(rows: seq<seq<int>>, sep: char)
    requires WellFormed(Mat(rows)) && |rows| >= 2 && !IsDigit(sep)
    requires forall i :: 0 <= i < |rows| ==> InBase(rows[i], 10)
    ensures ArrayFromString(StringFromArray(Mat(rows), sep), sep) == Ok(Mat(rows))
  {
    var pieces := seq(|rows|, i requires 0 <= i < |rows| => DigitString(rows[i]));
    MatrixString(rows, sep);
    SeparatorInJoin(pieces, sep);
    SplitJoin(pieces, sep);
    ParseDigitRows(rows);
  }

  /** A single-row matrix comes back from its string as a 1-D array. */
  lemma StringRoundTripSingleRow(row: seq<int>, sep: char)
    requires InBase(row, 10) && !IsDigit(sep)
    ensures ArrayFromString(StringFromArray(Mat([row]), sep), sep) == Ok(Vec(row))
  {
    MatrixString([row], sep);
    RowStringOfDigits(row);
    ParseDigitString(row);
  }

  /** encode_string: the code of the array a string stands for. */
  method EncodeString(x: string, base: int) returns (r: Result<int>)
    ensures ArrayFromString(x, '-').Err? ==> r == Err(ArrayFromString(x, '-').error)
    ensures ArrayFromString(x, '-').Ok? ==>
      (r.Ok? <==> InBase(Ravel(ArrayFromString(x, '-').value), base))
    ensures r.Ok? ==>
      ArrayFromString(x, '-').Ok? && r.value == Numeral(Ravel(ArrayFromString(x, '-').value), base)
  {
    var a := ArrayFromString(x, '-');
    if a.Err? {
      return Err(a.error);
    }
    r := EncodeArray(a.value, base);
  }

  /** decode_string: the string of the array a code decodes to. */
  method DecodeString(code: int, shape: seq<nat>, base: int) returns (r: Result<string>)
    requires base >= 2
    requires |shape| == 1 || |shape| == 2
    requires |shape| == 2 ==> shape[0] >= 1
    ensures r.Ok? <==> code < Pow(base, Product(shape))
    ensures r.Err? ==> r.error == CodeTooLong(code, shape)
    ensures r.Ok? ==>
      && |Decode(code, base, Product(shape))| == Product(shape)
      && r.value == StringFromArray(Reshape(Decode(code, base, Product(shape)), shape), '-')
  {
    var a := DecodeArray(code, shape, base);
    if a.Err? {
      return Err(a.error);
    }
    var x := a.value;
    ReshapeRavel(x);
    assert x == Reshape(Decode(code, base, Product(shape)), shape);
    return Ok(StringFromArray(x, '-'));
  }

  /** The cases of the unit tests: [1, 0, 0, 1] is 9 in base 2 and 28 in base 3. */
  lemma NumeralExamples()
    ensures Numeral([1, 0, 0, 1], 2) == 9 && Numeral([1, 0, 0, 1], 3) == 28
  {
    var s := [1, 0, 0, 1];
    assert s[..3] == [1, 0, 0] && [1, 0, 0][..2] == [1, 0] && [1, 0][..1] == [1] && [1][..0] == [];
  }

  /** 9 in base 2 and 28 in base 3 decode to [1, 0, 0, 1]; 0 decodes to nothing. */
  lemma DecodeExamples()
    ensures Decode(0, 2, 0) == [] && Decode(9, 2, 0) == [1, 0, 0, 1] && Decode(28, 3, 0) == [1, 0, 0, 1]
  {
    DigitsStep(9, 2);
    DigitsStep(4, 2);
    DigitsStep(2, 2);
    DigitsStep(1, 2);
    DigitsStep(28, 3);
    DigitsStep(9, 3);
    DigitsStep(3, 3);
    DigitsStep(1, 3);
  }

  /** 20 in base 4 padded to 5 digits is [0, 0, 1, 1, 0]; the sequence
      [0, 1, 1, 0, 0], which the unit test of the source expects here, is the
      code 80 and not 20. */
  lemma PaddedDecodeExample()
    ensures Decode(20, 4, 5) == [0, 0, 1, 1, 0]
    ensures Decode(20, 4, 5) != [0, 1, 1, 0, 0] && Numeral([0, 1, 1, 0, 0], 4) == 80
  {
    DigitsOfTwenty();
    NumeralOfEighty();
    assert Repeat(0, 2) == [0, 0];
    assert ZeroPad([1, 1, 0], 5) == [0, 0, 1, 1, 0];
    assert [0, 0, 1, 1, 0][1] != [0, 1, 1, 0, 0][1];
  }

  /** 20 is 110 in base 4. */
  lemma DigitsOfTwenty()
    ensures Digits(20, 4) == [1, 1, 0]
  {
    DigitsStep(20, 4);
    DigitsStep(5, 4);
    DigitsStep(1, 4);
    assert Digits(0, 4) == [];
    assert Digits(1, 4) == [1];
    assert Digits(5, 4) == [1] + [1];
  }

  /** 01100 in base 4 is 80. */
  lemma NumeralOfEighty()
    ensures Numeral([0, 1, 1, 0, 0], 4) == 80
  {
    var t := [0, 1, 1, 0, 0];
    assert t[..4] == [0, 1, 1, 0] && t[..4][..3] == [0, 1, 1] && [0, 1, 1][..2] == [0, 1];
    assert [0, 1][..1] == [0] && [0][..0] == [];
  }

  /** The string cases of the unit tests. */
  lemma StringExamples()
    ensures StringFromArray(Vec([]), '-') == ""
    ensures ArrayFromString("", '-') == Ok(Vec([]))
    ensures StringFromArray(Mat([[0, 0, 0, 0], [1, 0, 0, 0], [0, 1, 0, 1]]), '-') == "0000-1000-0101"
    ensures ArrayFromString("0000-1000-0101", '-') == Ok(Mat([[0, 0, 0, 0], [1, 0, 0, 0], [0, 1, 0, 1]]))
  {
    var rows := [[0, 0, 0, 0], [1, 0, 0, 0], [0, 1, 0, 1]];
    MatrixText(rows);
    StringRoundTripMatrix(rows, '-');
  }

  /** The 3 x 4 matrix of the unit tests is written "0000-1000-0101". */
  lemma MatrixText(rows: seq<seq<int>>)
    requires rows == [[0, 0, 0, 0], [1, 0, 0, 0], [0, 1, 0, 1]]
    ensures WellFormed(Mat(rows)) && forall i :: 0 <= i < |rows| ==> InBase(rows[i], 10)
    ensures StringFromArray(Mat(rows), '-') == "0000-1000-0101"
  {
    MatrixPieces(rows);
    MatrixString(rows, '-');
    JoinThree("0000", "1000", "0101", '-');
    JoinedLiteral();
  }

  lemma MatrixPieces(rows: seq<seq<int>>)
    requires rows == [[0, 0, 0, 0], [1, 0, 0, 0], [0, 1, 0, 1]]
    ensures WellFormed(Mat(rows)) && forall i :: 0 <= i < |rows| ==> InBase(rows[i], 10)
    ensures seq(|rows|, i requires 0 <= i < |rows| => DigitString(rows[i])) == ["0000", "1000", "0101"]
  {
    assert forall i :: 0 <= i < |rows| ==> InBase(rows[i], 10);
    assert DigitString(rows[0]) == "0000";
    assert DigitString(rows[1]) == "1000";
    assert DigitString(rows[2]) == "0101";
  }

  lemma JoinedLiteral()
    ensures "0000" + ['-'] + "1000" + ['-'] + "0101" == "0000-1000-0101"
  {
  }
}
