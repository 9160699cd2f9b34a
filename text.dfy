/** The string operations the canonical block keys are built from: Python's
    str() of an int, str.lstrip, str.split and str.join. */
module Text {

  /** `n` copies of `z`. */
  function Repeat<T>(z: T, n: nat): (r: seq<T>)
    ensures |r| == n && forall i :: 0 <= i < n ==> r[i] == z
  {
    seq(n, _ => z)
  }

  /** Python's lstrip of a single character, on any sequence: the suffix left
      once every leading `z` is removed. */
  function LStrip<T(==)>(s: seq<T>, z: T): (r: seq<T>)
    ensures |r| <= |s|
    ensures r == [] || r[0] != z
    ensures s == Repeat(z, |s| - |r|) + r
  {
    if s != [] && s[0] == z then LStrip(s[1..], z) else s
  }

  /** The decimal digit character of `d`. */
  function DigitChar(d: int): char
    requires 0 <= d <= 9
  {
    (48 + d) as char
  }

  predicate IsDigit(c: char) {
    '0' <= c <= '9'
  }

  /** The value of a decimal digit character. */
  function DigitValue(c: char): (d: int)
    requires IsDigit(c)
    ensures 0 <= d <= 9 && DigitChar(d) == c
  {
    c as int - 48
  }

  predicate AllDigits(s: string) {
    forall i :: 0 <= i < |s| ==> IsDigit(s[i])
  }

  /** A decimal numeral as Python prints one: digits, and no leading zero
      except in "0" itself. */
  predicate IsNumeral(s: string) {
    |s| >= 1 && AllDigits(s) && (s[0] == '0' ==> |s| == 1)
  }

  /** The number a string of digits denotes, read most significant first. */
  function DecimalValue(s: string): nat
    requires AllDigits(s)
  {
    if s == [] then 0 else 10 * DecimalValue(s[..|s| - 1]) + DigitValue(s[|s| - 1])
  }

  /** Decimal numeral of a natural number, without leading zeros. */
  function NatDecimal(n: nat): (r: string)
    ensures IsNumeral(r) && DecimalValue(r) == n
    ensures (r[0] == '0') <==> n == 0
    ensures |r| == 1 <==> n < 10
  {
    if n < 10 then [DigitChar(n)]
    else
      var p := NatDecimal(n / 10);
      var r := p + [DigitChar(n % 10)];
      assert r[..|r| - 1] == p;
      r
  }

  /** A numeral with a non-zero first digit denotes a positive number. */
  lemma {:induction false} NumeralPositive(s: string)
    requires |s| >= 1 && AllDigits(s) && s[0] != '0'
    ensures DecimalValue(s) >= 1
  {
    if |s| > 1 {
      NumeralPositive(s[..|s| - 1]);
    }
  }

  /** Every numeral is the one NatDecimal prints for its value, so `Decimal`
      fixes str() completely. */
  lemma {:induction false} NatDecimalOfValue(s: string)
    requires IsNumeral(s)
    ensures NatDecimal(DecimalValue(s)) == s
  {
    var p, c := s[..|s| - 1], s[|s| - 1];
    if |p| >= 1 {
      NumeralPositive(p);
      NatDecimalOfValue(p);
      var q, d := DecimalValue(p), DigitValue(c);
      LastDigit(q, d);
      assert NatDecimal(10 * q + d) == NatDecimal(q) + [DigitChar(d)];
      assert s == p + [c];
    }
  }

  lemma LastDigit(q: nat, d: int)
    requires q >= 1 && 0 <= d <= 9
    ensures (10 * q + d) / 10 == q && (10 * q + d) % 10 == d && 10 * q + d >= 10
  {
  }

  /** Python's str() of an int: a '-' sign for a negative, then the decimal
      numeral of its magnitude. */
  function Decimal(i: int): (r: string)
    ensures ('-' in r) <==> i < 0
    ensures 0 <= i <= 9 ==> r == [DigitChar(i)]
    ensures i >= 0 ==> IsNumeral(r) && DecimalValue(r) == i
    ensures i < 0 ==> r[0] == '-' && IsNumeral(r[1..]) && DecimalValue(r[1..]) == -i
  {
    if i < 0 then
      var r := "-" + NatDecimal(-i);
      assert r[1..] == NatDecimal(-i);
      r
    else NatDecimal(i)
  }

  /** Python's sep.join(pieces) for a one-character separator. */
  function Join(pieces: seq<string>, sep: char): string {
    if pieces == [] then []
    else if |pieces| == 1 then pieces[0]
    else pieces[0] + [sep] + Join(pieces[1..], sep)
  }

  lemma JoinThree(a: string, b: string, c: string, sep: char)
    ensures Join([a, b, c], sep) == a + [sep] + b + [sep] + c
  {
    assert [a, b, c][1..] == [b, c] && [b, c][1..] == [c];
    assert Join([c], sep) == c;
    assert Join([b, c], sep) == b + [sep] + c;
  }

  lemma JoinFour(a: string, b: string, c: string, d: string, sep: char)
    ensures Join([a, b, c, d], sep) == a + [sep] + b + [sep] + c + [sep] + d
  {
    assert [a, b, c, d][1..] == [b, c, d];
    JoinThree(b, c, d, sep);
  }

  /** Python's s.split(sep) for a one-character separator: the pieces between
      separators, empty ones included. */
  function Split(s: string, sep: char): (r: seq<string>)
    ensures |r| >= 1
    ensures forall i :: 0 <= i < |r| ==> sep !in r[i]
    ensures (sep in s) <==> |r| >= 2
  {
    if s == [] then [[]]
    else
      var t := Split(s[1..], sep);
      if s[0] == sep then [[]] + t else [[s[0]] + t[0]] + t[1..]
  }

  /** Joining the pieces of a split gives back the string. */
  lemma {:induction false} JoinSplit(s: string, sep: char)
    ensures Join(Split(s, sep), sep) == s
  {
    if s != [] {
      var t := Split(s[1..], sep);
      JoinSplit(s[1..], sep);
      if s[0] == sep {
        assert Split(s, sep) == [[]] + t;
      } else {
        var r := [[s[0]] + t[0]] + t[1..];
        assert Split(s, sep) == r;
        if |t| == 1 {
          assert Join(r, sep) == [s[0]] + t[0];
        } else {
          assert r[1..] == t[1..];
          assert Join(r, sep) == [s[0]] + (t[0] + [sep] + Join(t[1..], sep));
        }
      }
    }
  }

  /** Splitting a string that starts with a separator-free piece and a
      separator splits off that piece. */
  lemma {:induction false} SplitPiece(p: string, sep: char, rest: string)
    requires sep !in p
    ensures Split(p + [sep] + rest, sep) == [p] + Split(rest, sep)
  {
    if p == [] {
      assert p + [sep] + rest == [sep] + rest;
    } else {
      var s := p + [sep] + rest;
      SplitPiece(p[1..], sep, rest);
      assert s[1..] == p[1..] + [sep] + rest;
      assert s[0] == p[0] && p[0] != sep;
      var t := Split(s[1..], sep);
      assert t == [p[1..]] + Split(rest, sep);
      assert [p[0]] + p[1..] == p;
    }
  }

  /** A separator-free string splits into itself. */
  lemma {:induction false} SplitWhole(p: string, sep: char)
    requires sep !in p
    ensures Split(p, sep) == [p]
  {
    if p != [] {
      SplitWhole(p[1..], sep);
      assert p[0] != sep;
      assert [p[0]] + p[1..] == p;
    }
  }

  /** Splitting a join of separator-free pieces gives the pieces back. */
  lemma {:induction false} SplitJoin(pieces: seq<string>, sep: char)
    requires |pieces| >= 1
    requires forall i :: 0 <= i < |pieces| ==> sep !in pieces[i]
    ensures Split(Join(pieces, sep), sep) == pieces
  {
    if |pieces| == 1 {
      SplitWhole(pieces[0], sep);
    } else {
      SplitJoin(pieces[1..], sep);
      SplitPiece(pieces[0], sep, Join(pieces[1..], sep));
    }
  }
}
