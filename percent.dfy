/** `percent(str)`: a '+' in front of a value whose `to_f` is positive.

    `String#to_f` reads the longest decimal prefix of the string (after leading
    white space: an optional sign, digits, an optional '.' and more digits) and
    ignores the rest; a string with no such prefix reads as 0.0, and so does nil.
    Only the sign of that value matters here, so the model keeps the digits it
    reads and their sign, not a floating-point number. */
module Percent {
  import opened Values
  import opened Strings

  /** The white space `to_f` skips before the number. */
  predicate IsSpace(c: char) {
    c == ' ' || c == '\t' || c == '\n' || c == '\U{0B}' || c == '\U{0C}' || c == '\r'
  }

  /** The decimal prefix `to_f` reads: its sign, and its integer and fraction
      digits written one after the other (the position of the '.' does not
      change the sign of the value). */
  datatype Decimal = Decimal(negative: bool, digits: string)

  /** The run of digits at the start of `u`, then the fraction digits after a '.'. */
  function IntDigits(u: string): (r: string)
    ensures AllDigits(r)
    ensures |r| <= |u|
  {
    if u != [] && IsDigit(u[0]) then [u[0]] + IntDigits(u[1..])
    else if u != [] && u[0] == '.' then FracDigits(u[1..])
    else []
  }

  /** The run of digits at the start of `u`. */
  function FracDigits(u: string): (r: string)
    ensures AllDigits(r)
    ensures |r| <= |u|
  {
    if u != [] && IsDigit(u[0]) then [u[0]] + FracDigits(u[1..]) else []
  }

  /** The sign and the digits after the white space. */
  function Signed(t: string): Decimal {
    if t != [] && t[0] == '-' then Decimal(true, IntDigits(t[1..]))
    else if t != [] && t[0] == '+' then Decimal(false, IntDigits(t[1..]))
    else Decimal(false, IntDigits(t))
  }

  /** What `s.to_f` reads from `s`. */
  function Leading(s: string): (d: Decimal)
    ensures AllDigits(d.digits)
  {
    if s != [] && IsSpace(s[0]) then Leading(s[1..]) else Signed(s)
  }

  /** The number a string of decimal digits denotes. */
  function DigitsValue(d: string): nat
    requires AllDigits(d)
  {
    if d == [] then 0 else 10 * DigitsValue(d[..|d| - 1]) + (d[|d| - 1] as int - '0' as int)
  }

  /** The value `s.to_f` reads, multiplied by ten to the number of fraction digits
      it read: an integer with the same sign as that value. */
  function ScaledValue(s: string): int {
    var d := Leading(s);
    var v: int := DigitsValue(d.digits);
    if d.negative then -v else v
  }

  predicate HasNonzeroDigit(d: string) {
    exists i :: 0 <= i < |d| && d[i] != '0'
  }

  /** `s.to_f > 0`, decided on the text: no '-' sign and some digit other than '0'. */
  predicate ToFPositive(s: string) {
    var d := Leading(s);
    !d.negative && HasNonzeroDigit(d.digits)
  }

  lemma {:induction false} DigitsValuePositive(d: string)
    requires AllDigits(d)
    ensures DigitsValue(d) > 0 <==> HasNonzeroDigit(d)
  {
    if d != [] {
      var p := d[..|d| - 1];
      DigitsValuePositive(p);
      if HasNonzeroDigit(p) {
        var i :| 0 <= i < |p| && p[i] != '0';
        assert d[i] != '0';
      }
      if HasNonzeroDigit(d) && d[|d| - 1] == '0' {
        var i :| 0 <= i < |d| && d[i] != '0';
        assert p[i] != '0';
      }
    }
  }

  /** The text test agrees with the value: it holds exactly when the value read is positive. */
  lemma ToFPositiveIsValue(s: string)
    ensures ToFPositive(s) <==> ScaledValue(s) > 0
  {
    DigitsValuePositive(Leading(s).digits);
  }

  /** Text made only of the white space `to_f` skips. */
  predicate AllSpace(w: string) {
    forall i :: 0 <= i < |w| ==> IsSpace(w[i])
  }

  /** A run of digits followed by anything but a digit reads as that run. */
  lemma {:induction false} FracDigitsOf(b: string, rest: string)
    requires AllDigits(b)
    requires rest == [] || !IsDigit(rest[0])
    ensures FracDigits(b + rest) == b
  {
    if b != [] {
      assert (b + rest)[1..] == b[1..] + rest;
      FracDigitsOf(b[1..], rest);
    } else {
      assert b + rest == rest;
    }
  }

  /** The integer digits are read first, then whatever follows them. */
  lemma {:induction false} IntDigitsAfter(a: string, tail: string)
    requires AllDigits(a)
    ensures IntDigits(a + tail) == a + IntDigits(tail)
  {
    if a != [] {
      assert (a + tail)[0] == a[0] && (a + tail)[1..] == a[1..] + tail;
      IntDigitsAfter(a[1..], tail);
      assert a == [a[0]] + a[1..];
    } else {
      assert a + tail == tail;
    }
  }

  /** Leading white space is skipped up to the first other character. */
  lemma {:induction false} LeadingSkipsSpace(w: string, t: string)
    requires AllSpace(w)
    requires t == [] || !IsSpace(t[0])
    ensures Leading(w + t) == Signed(t)
  {
    if w != [] {
      assert (w + t)[0] == w[0] && (w + t)[1..] == w[1..] + t;
      LeadingSkipsSpace(w[1..], t);
    } else {
      assert w + t == t;
    }
  }

  lemma Regroup4(p: string, q: string, r: string, x: string)
    ensures p + q + r + x == p + (q + (r + x))
  {
  }

  lemma Regroup6(p: string, q: string, r: string, x: string, y: string, z: string)
    ensures p + q + r + x + y + z == p + (q + (r + (x + (y + z))))
  {
  }

  /** An explicit sign is read as such; without one, the text must not start with a sign. */
  lemma SignedOf(sign: string, u: string)
    requires sign == "" || sign == "-" || sign == "+"
    requires sign != "" || u == [] || (u[0] != '-' && u[0] != '+')
    ensures Signed(sign + u) == Decimal(sign == "-", IntDigits(u))
  {
    if sign != "" {
      assert (sign + u)[0] == sign[0] && (sign + u)[1..] == u;
    } else {
      assert sign + u == u;
    }
  }

  /** `to_f` on white space, a sign, integer digits, a '.', fraction digits and any
      text that does not continue the number: the sign, and the integer digits
      followed by the fraction digits. */
  lemma LeadingWithDot(w: string, sign: string, a: string, b: string, rest: string)
    requires AllSpace(w)
    requires sign == "" || sign == "-" || sign == "+"
    requires AllDigits(a) && AllDigits(b)
    requires rest == [] || !IsDigit(rest[0])
    ensures Leading(w + sign + a + "." + b + rest) == Decimal(sign == "-", a + b)
  {
    var dot := "." + (b + rest);
    var u := a + dot;
    assert IntDigits(dot) == b by {
      assert dot[0] == '.' && dot[1..] == b + rest;
      FracDigitsOf(b, rest);
    }
    IntDigitsAfter(a, dot);
    assert u[0] == '.' || IsDigit(u[0]) by {
      if a != [] { assert u[0] == a[0]; } else { assert u == dot; }
    }
    SignedOf(sign, u);
    var t := sign + u;
    assert !IsSpace(t[0]) by {
      if sign != "" { assert t[0] == sign[0]; } else { assert t == u; }
    }
    LeadingSkipsSpace(w, t);
    Regroup6(w, sign, a, ".", b, rest);
  }

  /** The same without a '.': the sign and the integer digits. When there is neither
      a sign nor a digit, `rest` must not start with more white space or a sign. */
  lemma LeadingNoDot(w: string, sign: string, a: string, rest: string)
    requires AllSpace(w)
    requires sign == "" || sign == "-" || sign == "+"
    requires AllDigits(a)
    requires rest == [] || (!IsDigit(rest[0]) && rest[0] != '.')
    requires sign + a == [] ==> rest == [] || (!IsSpace(rest[0]) && rest[0] != '-' && rest[0] != '+')
    ensures Leading(w + sign + a + rest) == Decimal(sign == "-", a)
  {
    var u := a + rest;
    IntDigitsAfter(a, rest);
    assert IntDigits(rest) == [];
    assert sign != "" || u == [] || (u[0] != '-' && u[0] != '+') by {
      if a != [] { assert u[0] == a[0]; } else { assert u == rest; }
    }
    SignedOf(sign, u);
    var t := sign + u;
    assert t == [] || !IsSpace(t[0]) by {
      if sign != "" { assert t[0] == sign[0]; }
      else if a != [] { assert t[0] == a[0]; }
      else { assert t == rest; }
    }
    LeadingSkipsSpace(w, t);
    Regroup4(w, sign, a, rest);
  }

  /** `percent(str)`: "+" and the string when its value is positive, the value
      unchanged otherwise; nil stays nil, since `nil.to_f` is 0.0. */
  function Percent(str: Nilable): (r: Nilable)
    ensures str.None? ==> r.None?
    ensures str.Some? ==> r == Some(if ScaledValue(str.value) > 0 then "+" + str.value else str.value)
  {
    match str
    case None => None
    case Some(s) =>
      ToFPositiveIsValue(s);
      if ToFPositive(s) then Some("+" + s) else Some(s)
  }

  /** The result is the input, or "+" followed by the input. */
  lemma PercentShape(s: string)
    ensures Percent(Some(s)) == Some(s) || Percent(Some(s)) == Some("+" + s)
    ensures Percent(Some(s)).value[|Percent(Some(s)).value| - |s|..] == s
  {
  }

  /** A value written with a leading '-' never gets a '+'. */
  lemma PercentNegative(s: string)
    requires s != [] && s[0] == '-'
    ensures Percent(Some(s)) == Some(s)
  {
    assert Leading(s).negative;
  }

  /** Only zeros, a '.' and a sign: the value is zero, and no '+' is added. */
  predicate ZeroText(s: string) {
    forall i :: 0 <= i < |s| ==> s[i] == '0' || s[i] == '.' || s[i] == '-' || s[i] == '+'
  }

  lemma {:induction false} FracDigitsOfZero(u: string)
    requires ZeroText(u)
    ensures !HasNonzeroDigit(FracDigits(u))
  {
    if u != [] && IsDigit(u[0]) {
      FracDigitsOfZero(u[1..]);
      NoNonzeroCons(u[0], FracDigits(u[1..]));
    }
  }

  lemma {:induction false} IntDigitsOfZero(u: string)
    requires ZeroText(u)
    ensures !HasNonzeroDigit(IntDigits(u))
  {
    if u != [] && IsDigit(u[0]) {
      IntDigitsOfZero(u[1..]);
      NoNonzeroCons(u[0], IntDigits(u[1..]));
    } else if u != [] && u[0] == '.' {
      FracDigitsOfZero(u[1..]);
    }
  }

  lemma NoNonzeroCons(c: char, r: string)
    requires c == '0' && !HasNonzeroDigit(r)
    ensures !HasNonzeroDigit([c] + r)
  {
    forall i | 0 <= i < |[c] + r| ensures ([c] + r)[i] == '0' {
      if i > 0 {
        assert ([c] + r)[i] == r[i - 1];
      }
    }
  }

  lemma PercentZero(s: string)
    requires ZeroText(s)
    ensures ScaledValue(s) == 0
    ensures Percent(Some(s)) == Some(s)
  {
    if s != [] && (s[0] == '-' || s[0] == '+') {
      IntDigitsOfZero(s[1..]);
    } else {
      IntDigitsOfZero(s);
    }
    DigitsValuePositive(Leading(s).digits);
  }

  lemma PercentExamples()
    ensures Percent(Some("3.5")) == Some("+3.5")
    ensures Percent(Some("-2.1")) == Some("-2.1")
    ensures Percent(Some("0")) == Some("0")
    ensures Percent(None) == None
  {
    assert Leading("3.5") == Decimal(false, "35") by {
      assert FracDigits("5") == "5";
      assert IntDigits(".5") == "5";
      assert IntDigits("3.5") == "35";
    }
    assert HasNonzeroDigit("35") by { assert "35"[0] != '0'; }
    assert ToFPositive("3.5");
    assert "+" + "3.5" == "+3.5";
    PercentNegative("-2.1");
    PercentZero("0");
  }
}
