/** Number <-> text conversions used by the protocol: `Int(_)`, `String(Int)`,
    `Float(_)` on plain decimal literals, and `String(format: "%.2f", _)`.
    Floating-point values are modelled as exact reals. */
module SwiftNumbers {
  import opened Wrappers
  import opened SwiftStrings

  /** The range of Swift's 64-bit `Int`. */
  const IntMin: int := -0x8000_0000_0000_0000
  const IntMax: int := 0x7FFF_FFFF_FFFF_FFFF

  predicate InIntRange(n: int) {
    IntMin <= n <= IntMax
  }

  predicate IsDigit(c: char) {
    '0' <= c <= '9'
  }

  predicate AllDigits(s: string) {
    forall i :: 0 <= i < |s| ==> IsDigit(s[i])
  }

  function DigitValue(c: char): (d: nat)
    requires IsDigit(c)
    ensures d < 10
  {
    (c as int) - ('0' as int)
  }

  function DigitChar(d: nat): (c: char)
    requires d < 10
    ensures IsDigit(c) && DigitValue(c) == d
  {
    (('0' as int) + d) as char
  }

  /** The value of a string of ASCII decimal digits, most significant first. */
  function DigitsValue(s: string): nat
    requires AllDigits(s)
  {
    if s == [] then 0 else DigitsValue(s[..|s| - 1]) * 10 + DigitValue(s[|s| - 1])
  }

  /** `String(n)` for a non-negative `n`: the shortest decimal rendering. */
  function ShowNat(n: nat): (r: string)
    ensures r != [] && AllDigits(r)
    ensures DigitsValue(r) == n
    ensures |r| > 1 ==> r[0] != '0'
  {
    if n < 10 then [DigitChar(n)]
    else
      var r := ShowNat(n / 10) + [DigitChar(n % 10)];
      assert r[..|r| - 1] == ShowNat(n / 10);
      r
  }

  /** `String(n)`: a minus sign for negative numbers, then the digits. */
  function Show(n: int): (r: string)
    ensures r != [] && IsDigit(r[|r| - 1]) && (IsDigit(r[0]) || r[0] == '-')
  {
    if n < 0 then "-" + ShowNat(-n) else ShowNat(n)
  }

  /** `String(n)` is digits with at most a leading minus. */
  lemma ShowChars(n: int)
    ensures forall i :: 0 <= i < |Show(n)| ==> IsDigit(Show(n)[i]) || (i == 0 && Show(n)[i] == '-')
  {
    if n < 0 {
      assert forall i :: 1 <= i < |Show(n)| ==> Show(n)[i] == ShowNat(-n)[i - 1];
    }
  }

  /** `Int(s)`: an optional `+` or `-`, then one or more ASCII digits and
      nothing else (no whitespace), and the value must fit a 64-bit `Int`. */
  function ParseInt(s: string): (r: Option<int>)
    ensures r.Some? ==> InIntRange(r.value)
    ensures r.Some? ==> s != [] && forall i :: 0 <= i < |s| ==> IsDigit(s[i]) || (i == 0 && (s[i] == '+' || s[i] == '-'))
    ensures r.Some? ==> IsDigit(s[|s| - 1])
  {
    if |s| > 0 && (s[0] == '+' || s[0] == '-') then
      var d := s[1..];
      if d != [] && AllDigits(d) then
        var m: int := DigitsValue(d);
        var v := if s[0] == '-' then -m else m;
        if InIntRange(v) then Some(v) else None
      else None
    else if s != [] && AllDigits(s) && InIntRange(DigitsValue(s)) then Some(DigitsValue(s))
    else None
  }

  /** Every literal `[+|-]digits` is read as its signed value, leading
      zeros included, exactly when that value fits a 64-bit `Int`. */
  lemma ParseIntOf(sign: string, d: string)
    requires sign == "" || sign == "+" || sign == "-"
    requires d != [] && AllDigits(d)
    ensures var v := if sign == "-" then -(DigitsValue(d) as int) else DigitsValue(d) as int;
      ParseInt(sign + d) == if InIntRange(v) then Some(v) else None
  {
    var s := sign + d;
    if sign == "" {
      assert s == d && s[0] != '+' && s[0] != '-';
    } else {
      assert s[0] == sign[0] && s[1..] == d;
    }
  }

  /** What `String(n)` prints, `Int(_)` reads back. */
  lemma ParseShow(n: int)
    requires InIntRange(n)
    ensures ParseInt(Show(n)) == Some(n)
  {
    if n < 0 {
      assert Show(n)[1..] == ShowNat(-n);
    } else {
      assert Show(n)[0] != '+' && Show(n)[0] != '-';
    }
  }

  // ------------------------------------------------------- Float parsing

  /** The value of the digits after a decimal point: `0.d1d2...` is
      `(d1 + 0.d2...) / 10`. */
  function FractionValue(f: string): (r: real)
    requires AllDigits(f)
    ensures 0.0 <= r
  {
    if f == [] then 0.0 else (DigitValue(f[0]) as real + FractionValue(f[1..])) / 10.0
  }

  /** An unsigned decimal literal: digits, optionally one `.` and more digits,
      with at least one digit in all. */
  function ParseUnsignedDecimal(s: string): (r: Option<real>)
    ensures r.Some? ==> r.value >= 0.0
  {
    var k := IndexOf(s, '.');
    if k == |s| then
      if s != [] && AllDigits(s) then Some(DigitsValue(s) as real) else None
    else
      var whole := s[..k];
      var frac := s[k + 1..];
      if |whole| + |frac| > 0 && AllDigits(whole) && AllDigits(frac) then
        Some(DigitsValue(whole) as real + FractionValue(frac))
      else None
  }

  /** `Float(s)` restricted to plain decimal literals with an optional sign;
      its value is taken exactly. */
  function ParseDecimal(s: string): (r: Option<real>)
    ensures r.Some? ==> s != []
  {
    if |s| > 0 && (s[0] == '+' || s[0] == '-') then
      match ParseUnsignedDecimal(s[1..])
      case Some(v) => Some(if s[0] == '-' then -v else v)
      case None => None
    else ParseUnsignedDecimal(s)
  }

  /** `Float(_)` accepts only an optional sign, then digits with at most one
      point among them, and at least one digit. */
  lemma ParseDecimalShape(s: string)
    ensures ParseDecimal(s).Some? ==> (
      s != [] &&
      (forall i :: 0 <= i < |s| ==> IsDigit(s[i]) || s[i] == '.' || (i == 0 && (s[i] == '+' || s[i] == '-'))) &&
      (forall i, j :: 0 <= i < j < |s| && s[i] == '.' ==> s[j] != '.') &&
      (exists i :: 0 <= i < |s| && IsDigit(s[i])))
    ensures ParseDecimal(s).Some? && ParseDecimal(s).value < 0.0 ==> s[0] == '-'
  {
    if ParseDecimal(s).Some? {
      if |s| > 0 && (s[0] == '+' || s[0] == '-') {
        var t := s[1..];
        UnsignedShape(t);
        forall i | 1 <= i < |s| ensures s[i] == t[i - 1] { }
        var d :| 0 <= d < |t| && IsDigit(t[d]);
        assert IsDigit(s[d + 1]);
      } else {
        UnsignedShape(s);
      }
    }
  }

  lemma UnsignedShape(s: string)
    requires ParseUnsignedDecimal(s).Some?
    ensures s != [] && exists i :: 0 <= i < |s| && IsDigit(s[i])
    ensures forall i :: 0 <= i < |s| ==> IsDigit(s[i]) || (s[i] == '.' && i == IndexOf(s, '.'))
  {
    var k := IndexOf(s, '.');
    if k == |s| {
      assert IsDigit(s[0]);
    } else {
      var whole, frac := s[..k], s[k + 1..];
      forall i | 0 <= i < |s| ensures IsDigit(s[i]) || (s[i] == '.' && i == k) {
        if i < k {
          assert s[i] == whole[i];
        } else if i > k {
          assert s[i] == frac[i - k - 1];
        }
      }
      if whole != [] {
        assert IsDigit(s[0]);
      } else {
        assert IsDigit(s[k + 1]);
      }
    }
  }

  /** A sign in front of an unsigned literal negates it or leaves it. */
  lemma SignedParses(s: string, sign: string, u: string, v: real)
    requires sign == "" || sign == "+" || sign == "-"
    requires u != [] && u[0] != '+' && u[0] != '-' && ParseUnsignedDecimal(u) == Some(v)
    requires s == sign + u
    ensures ParseDecimal(s) == Some(if sign == "-" then -v else v)
  {
    if sign == "" {
      assert s == u;
    } else {
      assert s[0] == sign[0] && s[1..] == u;
    }
  }

  /** A signed literal without a point, `[+|-]digits`, reads as its value. */
  lemma ParseDecimalWhole(sign: string, w: string)
    requires sign == "" || sign == "+" || sign == "-"
    requires w != [] && AllDigits(w)
    ensures ParseDecimal(sign + w) == Some(if sign == "-" then -(DigitsValue(w) as real) else DigitsValue(w) as real)
  {
    assert '.' !in w;
    assert IndexOf(w, '.') == |w|;
    assert IsDigit(w[0]);
    SignedParses(sign + w, sign, w, DigitsValue(w) as real);
  }

  /** A signed literal with a point, `[+|-]digits.digits`, reads as its
      whole part plus its fraction; either side of the point may be empty,
      but not both. */
  lemma ParseDecimalPointed(sign: string, w: string, f: string)
    requires sign == "" || sign == "+" || sign == "-"
    requires AllDigits(w) && AllDigits(f) && |w| + |f| > 0
    ensures var v := DigitsValue(w) as real + FractionValue(f);
      ParseDecimal(sign + w + "." + f) == Some(if sign == "-" then -v else v)
  {
    var s, u := sign + w + "." + f, w + "." + f;
    PointedParses(w, f);
    assert u[0] == if w == [] then '.' else w[0];
    Regrouped(sign, w, f);
    SignedParses(s, sign, u, DigitsValue(w) as real + FractionValue(f));
  }

  lemma Regrouped(sign: string, w: string, f: string)
    ensures sign + w + "." + f == sign + (w + "." + f)
  {
  }

  /** `Float(String(n))` is `n`. */
  lemma ParseDecimalShow(n: int)
    ensures ParseDecimal(Show(n)) == Some(n as real)
  {
    if n < 0 {
      ParseDecimalWhole("-", ShowNat(-n));
    } else {
      ParseDecimalWhole("", ShowNat(n));
      assert "" + ShowNat(n) == ShowNat(n);
    }
  }

  /** `Int(_)` takes a leading `+`. */
  lemma PlusIntExample()
    ensures ParseInt("+1") == Some(1)
  {
    ParseIntOf("+", "1");
    assert "+" + "1" == "+1";
  }

  /** `Int(_)` takes leading zeros. */
  lemma LeadingZeroIntExample()
    ensures ParseInt("00") == Some(0)
  {
    ParseIntOf("", "00");
    assert "00"[..1] == "0" && "0"[..0] == [];
    assert "" + "00" == "00";
  }

  /** `Int(_)` reads `-0` as 0. */
  lemma MinusZeroIntExample()
    ensures ParseInt("-0") == Some(0)
  {
    ParseIntOf("-", "0");
    assert "-" + "0" == "-0";
  }

  /** `Int(_)` refuses a sign without digits. */
  lemma BareSignIntExample()
    ensures ParseInt("+") == None && ParseInt("-") == None
  {
    assert "+"[1..] == [] && "-"[1..] == [];
  }

  /** `Int(_)` refuses blanks. */
  lemma BlankIntExample()
    ensures ParseInt(" 1") == None
  {
    assert !IsDigit(" 1"[0]);
  }

  /** `Float(_)` reads a whole number. */
  lemma WholeDecimalExample()
    ensures ParseDecimal("7") == Some(7.0)
  {
    ParseDecimalWhole("", "7");
    assert "" + "7" == "7";
  }

  /** `Float(_)` takes a leading `+`. */
  lemma SignedDecimalExample()
    ensures ParseDecimal("+3.25") == Some(3.25)
  {
    ParseDecimalPointed("+", "3", "25");
    assert "+" + "3" + "." + "25" == "+3.25";
    TwoDigitFraction('2', '5');
  }

  /** `Float(_)` takes a literal without a whole part. */
  lemma FractionDecimalExample()
    ensures ParseDecimal(".5") == Some(0.5)
  {
    SpelledHalf();
    ParseDecimalPointed("", "", "5");
  }

  lemma SpelledHalf()
    ensures "" + "" + "." + "5" == ".5" && AllDigits("5") && FractionValue("5") == 0.5
  {
    assert "5"[1..] == [];
  }

  /** `Float(_)` refuses a word. */
  lemma WordDecimalExample()
    ensures ParseDecimal("notanumber") == None
  {
    ParseDecimalShape("notanumber");
    assert !IsDigit("notanumber"[0]);
  }

  // ------------------------------------------------------ "%.2f" rendering

  /** `x * 100` rounded to the nearest integer, halves to even. */
  function RoundHundredths(x: real): (h: nat)
    requires x >= 0.0
    ensures h as real - 0.5 <= x * 100.0 <= h as real + 0.5
  {
    var y := x * 100.0;
    var f := y.Floor;
    var frac := y - f as real;
    if frac > 0.5 then f + 1
    else if frac < 0.5 then f
    else if f % 2 == 0 then f
    else f + 1
  }

  /** The real number that `Format2(x)` denotes. */
  function Round2(x: real): (r: real)
    ensures r - 0.005 <= x <= r + 0.005
  {
    if x < 0.0 then -(RoundHundredths(-x) as real / 100.0)
    else RoundHundredths(x) as real / 100.0
  }

  /** The two-decimal rendering of a magnitude. */
  function Fixed2(h: nat): (r: string)
    ensures |r| >= 4 && IsDigit(r[0]) && IsDigit(r[|r| - 1])
  {
    ShowNat(h / 100) + "." + [DigitChar(h % 100 / 10), DigitChar(h % 10)]
  }

  /** A two-decimal magnitude is made of digits and a point. */
  lemma Fixed2Chars(h: nat)
    ensures forall i :: 0 <= i < |Fixed2(h)| ==> IsDigit(Fixed2(h)[i]) || Fixed2(h)[i] == '.'
  {
  }

  /** `String(format: "%.2f", x)` applied to the exact value of `x`: a minus
      sign for negative values (also when they round to zero, as printf does),
      the integer part, a point and two rounded decimals. */
  function Format2(x: real): (r: string)
    ensures |r| >= 4 && IsDigit(r[|r| - 1]) && (IsDigit(r[0]) || r[0] == '-')
  {
    if x < 0.0 then "-" + Fixed2(RoundHundredths(-x)) else Fixed2(RoundHundredths(x))
  }

  /** `%.2f` prints digits, a point and at most a leading minus. */
  lemma Format2Chars(x: real)
    ensures forall i :: 0 <= i < |Format2(x)| ==>
      IsDigit(Format2(x)[i]) || Format2(x)[i] == '.' || (i == 0 && Format2(x)[i] == '-')
  {
    var h := if x < 0.0 then RoundHundredths(-x) else RoundHundredths(x);
    Fixed2Chars(h);
    if x < 0.0 {
      assert forall i :: 1 <= i < |Format2(x)| ==> Format2(x)[i] == Fixed2(h)[i - 1];
    }
  }

  /** A literal with a point reads as its whole part plus its fraction. */
  lemma PointedParses(w: string, f: string)
    requires |w| + |f| > 0 && AllDigits(w) && AllDigits(f)
    ensures ParseUnsignedDecimal(w + "." + f) == Some(DigitsValue(w) as real + FractionValue(f))
  {
    var s := w + "." + f;
    PointedPieces(w, f);
    var k := IndexOf(s, '.');
    assert k != |s| && s[..k] == w && s[k + 1..] == f;
  }

  /** Where the point of `w.f` is, and what lies on either side of it. */
  lemma PointedPieces(w: string, f: string)
    requires AllDigits(w)
    ensures var s := w + "." + f;
      IndexOf(s, '.') == |w| < |s| && s[..|w|] == w && s[|w| + 1..] == f
  {
    var s := w + "." + f;
    assert '.' !in w;
    assert s == w + (['.'] + f);
    IndexOfAfterRun(w, ['.'] + f, '.');
    assert s[..|w|] == w;
    assert s[|w| + 1..] == f;
  }

  lemma Fixed2Parses(h: nat)
    ensures ParseUnsignedDecimal(Fixed2(h)) == Some(h as real / 100.0)
  {
    var w := ShowNat(h / 100);
    var d1, d0 := DigitChar(h % 100 / 10), DigitChar(h % 10);
    assert Fixed2(h) == w + "." + [d1, d0];
    PointedParses(w, [d1, d0]);
    TwoDigitFraction(d1, d0);
    HundredthsSplit(h);
  }

  lemma TwoDigitFraction(a: char, b: char)
    requires IsDigit(a) && IsDigit(b)
    ensures FractionValue([a, b]) == (DigitValue(a) as real + DigitValue(b) as real / 10.0) / 10.0
  {
    assert [b][1..] == [];
    assert FractionValue([b]) == DigitValue(b) as real / 10.0;
    assert [a, b][1..] == [b];
  }

  /** Hundreds, tens and units put back together. */
  lemma HundredthsSplit(h: nat)
    ensures (h / 100) as real + ((h % 100 / 10) as real + (h % 10) as real / 10.0) / 10.0 == h as real / 100.0
  {
    var q, t, u := h / 100, h % 100 / 10, h % 10;
    assert h == 100 * q + 10 * t + u;
  }

  /** Reading the `%.2f` text of `x` back with `Float(_)` gives `x` rounded to
      hundredths, which is never more than half a hundredth away from `x`. */
  lemma Format2Parses(x: real)
    ensures ParseDecimal(Format2(x)) == Some(Round2(x))
  {
    if x < 0.0 {
      NegativeFormatParses(x);
    } else {
      PositiveFormatParses(x);
    }
  }

  lemma NegativeFormatParses(x: real)
    requires x < 0.0
    ensures ParseDecimal(Format2(x)) == Some(Round2(x))
  {
    var h := RoundHundredths(-x);
    assert Format2(x) == "-" + Fixed2(h);
    assert Round2(x) == -(h as real / 100.0);
    NegativeParses(Format2(x), h);
  }

  lemma PositiveFormatParses(x: real)
    requires x >= 0.0
    ensures ParseDecimal(Format2(x)) == Some(Round2(x))
  {
    var h := RoundHundredths(x);
    assert Format2(x) == Fixed2(h);
    assert Round2(x) == h as real / 100.0;
    PositiveParses(Format2(x), h);
  }

  lemma NegativeParses(s: string, h: nat)
    requires s == "-" + Fixed2(h)
    ensures ParseDecimal(s) == Some(-(h as real / 100.0))
  {
    Fixed2Parses(h);
    assert s[0] == '-' && s[1..] == Fixed2(h);
  }

  lemma PositiveParses(s: string, h: nat)
    requires s == Fixed2(h)
    ensures ParseDecimal(s) == Some(h as real / 100.0)
  {
    Fixed2Parses(h);
    assert s[0] != '+' && s[0] != '-';
  }
}
