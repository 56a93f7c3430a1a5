/** `commas(str)`: thousands separators for a numeric string.

    The handler splits `str.to_s` with `/([^\.]*)(\..*)?/` into an integer part
    and a fraction part, reverses the integer part, applies
    `gsub!(/(,|\.|^)(\d{3})(\d)/, '\1\2,\3')` until a pass substitutes nothing,
    reverses back and appends the fraction part. */
module Commas {
  import opened Values
  import opened Strings

  // ---------------------------------------------------------------------
  // One gsub! pass

  /** What one `gsub!` pass leaves: the rewritten text, and whether any
      substitution happened (when none did, `gsub!` returns nil and the loop stops). */
  datatype Pass = Pass(text: string, substituted: bool)

  /** One left-to-right `gsub!` pass of `/(,|\.|^)(\d{3})(\d)/` over `s`.
      `atLineStart` says whether `^` holds at the first position of `s`:
      at the start of the string or right after a newline. A match puts a comma
      between its three digits and the digit after them; scanning resumes after the
      match, so the digit consumed by one match never anchors the next. */
  function Scan(s: string, atLineStart: bool): (p: Pass)
    ensures |p.text| >= |s|
    ensures p.substituted <==> |p.text| > |s|
    ensures !p.substituted ==> p.text == s
    ensures |s| > 0 ==> p.text[0] == s[0]
    decreases |s|
  {
    if SeparatorMatch(s) then
      Pass(s[..4] + [','] + [s[4]] + Scan(s[5..], false).text, true)
    else if atLineStart && FourDigits(s) then
      Pass(s[..3] + [','] + [s[3]] + Scan(s[4..], false).text, true)
    else if s == [] then
      Pass([], false)
    else
      var rest := Scan(s[1..], s[0] == '\n');
      assert !rest.substituted ==> [s[0]] + rest.text == s;
      Pass([s[0]] + rest.text, rest.substituted)
  }

  /** `(\d{3})(\d)` matches at the start of `s`. */
  predicate FourDigits(s: string) {
    |s| >= 4 && IsDigit(s[0]) && IsDigit(s[1]) && IsDigit(s[2]) && IsDigit(s[3])
  }

  /** `(,|\.)(\d{3})(\d)` matches at the start of `s`. */
  predicate SeparatorMatch(s: string) {
    |s| >= 5 && (s[0] == ',' || s[0] == '.') && FourDigits(s[1..])
  }

  lemma ScanSeparator(s: string, b: bool)
    requires SeparatorMatch(s)
    ensures Scan(s, b) == Pass(s[..4] + [','] + [s[4]] + Scan(s[5..], false).text, true)
  {
  }

  lemma ScanLineStart(s: string)
    requires !SeparatorMatch(s) && FourDigits(s)
    ensures Scan(s, true) == Pass(s[..3] + [','] + [s[3]] + Scan(s[4..], false).text, true)
  {
  }

  /** Skipping a character at which no match starts. */
  lemma ScanSkip(s: string, b: bool)
    requires s != [] && !SeparatorMatch(s) && !(b && FourDigits(s))
    ensures Scan(s, b) == Pass([s[0]] + Scan(s[1..], s[0] == '\n').text, Scan(s[1..], s[0] == '\n').substituted)
  {
  }

  /** `^` only matters where four digits follow. */
  lemma ScanLineStartIrrelevant(s: string)
    requires !FourDigits(s)
    ensures Scan(s, false) == Scan(s, true)
  {
  }

  // ---------------------------------------------------------------------
  // Termination of `while int.gsub!(...)`

  /** The number of adjacent digit pairs in `s`. Every substitution puts a
      comma between two adjacent digits and nothing else creates such a pair. */
  function DigitPairs(s: string): nat
  {
    if |s| < 2 then 0
    else (if IsDigit(s[0]) && IsDigit(s[1]) then 1 else 0) + DigitPairs(s[1..])
  }

  /** 1 when the last character of `a` and the first of `b` are both digits. */
  function Bridge(a: string, b: string): nat {
    if a != [] && b != [] && IsDigit(a[|a| - 1]) && IsDigit(b[0]) then 1 else 0
  }

  lemma {:induction false} DigitPairsAppend(a: string, b: string)
    ensures DigitPairs(a + b) == DigitPairs(a) + DigitPairs(b) + Bridge(a, b)
    decreases |a|
  {
    if a == [] {
      assert a + b == b;
    } else {
      assert (a + b)[1..] == a[1..] + b;
      if |a| > 1 {
        DigitPairsAppend(a[1..], b);
      }
    }
  }

  /** Two ways of grouping the text around an inserted comma. */
  lemma RegroupComma(a: string, c: char, r: string)
    ensures a + [','] + [c] + r == a + [','] + ([c] + r)
    ensures a + [c] + r == a + ([c] + r)
  {
  }

  /** A digit pair is counted where the first character meets the rest. */
  lemma DigitPairsCons(c: char, x: string)
    ensures DigitPairs([c] + x) == DigitPairs(x) + (if x != [] && IsDigit(c) && IsDigit(x[0]) then 1 else 0)
  {
    assert ([c] + x)[1..] == x;
  }

  /** A comma separates: no pair is counted across it. */
  lemma DigitPairsComma(a: string, c: char, r: string)
    ensures DigitPairs(a + [','] + [c] + r) == DigitPairs(a) + DigitPairs([c] + r)
  {
    RegroupComma(a, c, r);
    DigitPairsAppend(a, [',']);
    DigitPairsAppend(a + [','], [c] + r);
  }

  lemma DigitPairsJoin(a: string, c: char, x: string)
    requires a != [] && IsDigit(a[|a| - 1]) && IsDigit(c)
    ensures DigitPairs(a + [c] + x) == DigitPairs(a) + DigitPairs([c] + x) + 1
  {
    RegroupComma(a, c, x);
    DigitPairsAppend(a, [c] + x);
    assert ([c] + x)[0] == c;
  }

  /** Putting a comma between the last digit of `a` and the digit `c`, and replacing what
      follows `c` by a text `r` with no more digit pairs that starts with the same character. */
  lemma ShrinkAtMatch(a: string, c: char, rest: string, r: string)
    requires a != [] && IsDigit(a[|a| - 1]) && IsDigit(c)
    requires DigitPairs(r) <= DigitPairs(rest)
    requires r == [] <==> rest == []
    requires r != [] ==> r[0] == rest[0]
    ensures DigitPairs(a + [','] + [c] + r) < DigitPairs(a + [c] + rest)
  {
    DigitPairsJoin(a, c, rest);
    DigitPairsCons(c, rest);
    DigitPairsCons(c, r);
    DigitPairsComma(a, c, r);
  }

  lemma SplitAround(s: string, i: nat)
    requires i < |s|
    ensures s == s[..i] + [s[i]] + s[i + 1..]
  {
  }

  /** A substitution at the start of `s` after `i` digits, given that the pass over what
      follows the match adds no digit pair. */
  lemma ShrinkAtStart(s: string, i: nat, r: string)
    requires 1 <= i < |s| && IsDigit(s[i - 1]) && IsDigit(s[i])
    requires DigitPairs(r) <= DigitPairs(s[i + 1..])
    requires r == [] <==> s[i + 1..] == []
    requires r != [] ==> r[0] == s[i + 1]
    ensures DigitPairs(s[..i] + [','] + [s[i]] + r) < DigitPairs(s)
  {
    SplitAround(s, i);
    ShrinkAtMatch(s[..i], s[i], s[i + 1..], r);
  }

  /** Skipping the first character of `s`, given that the pass over the rest adds no digit pair. */
  lemma ShrinkAfterSkip(s: string, r: string)
    requires s != []
    requires DigitPairs(r) <= DigitPairs(s[1..])
    requires r == [] <==> s[1..] == []
    requires r != [] ==> r[0] == s[1]
    ensures DigitPairs([s[0]] + r) <= DigitPairs(s)
    ensures DigitPairs(r) < DigitPairs(s[1..]) ==> DigitPairs([s[0]] + r) < DigitPairs(s)
  {
    SplitAround(s, 0);
    DigitPairsCons(s[0], s[1..]);
    DigitPairsCons(s[0], r);
  }

  /** A pass never adds a digit pair, and a pass that substitutes removes at least one:
      the measure under which the `while gsub!` loop terminates. */
  lemma {:induction false} ScanShrinksDigitPairs(s: string, atLineStart: bool)
    ensures DigitPairs(Scan(s, atLineStart).text) <= DigitPairs(s)
    ensures Scan(s, atLineStart).substituted ==> DigitPairs(Scan(s, atLineStart).text) < DigitPairs(s)
    decreases |s|
  {
    if SeparatorMatch(s) {
      ScanSeparator(s, atLineStart);
      ScanShrinksDigitPairs(s[5..], false);
      ShrinkAtStart(s, 4, Scan(s[5..], false).text);
    } else if atLineStart && FourDigits(s) {
      ScanLineStart(s);
      ScanShrinksDigitPairs(s[4..], false);
      ShrinkAtStart(s, 3, Scan(s[4..], false).text);
    } else if s != [] {
      ScanSkip(s, atLineStart);
      ScanShrinksDigitPairs(s[1..], s[0] == '\n');
      ShrinkAfterSkip(s, Scan(s[1..], s[0] == '\n').text);
    }
  }

  /** The text that `while w.gsub!(...); end` leaves in `w`: passes are repeated
      until one substitutes nothing, so the result is a fixpoint of a pass. */
  function GroupAll(w: string): (r: string)
    ensures !Scan(r, true).substituted
    decreases DigitPairs(w)
  {
    var p := Scan(w, true);
    if p.substituted then
      ScanShrinksDigitPairs(w, true);
      GroupAll(p.text)
    else w
  }

  // ---------------------------------------------------------------------
  // Splitting with /([^\.]*)(\..*)?/

  /** The characters of `s` before its first `c`: what `[^\.]*` matches with `c` the
      '.', and what `.*` matches with `c` the newline. */
  function Before(s: string, c: char): (r: string)
    ensures c !in r
  {
    if s == [] || s[0] == c then [] else [s[0]] + Before(s[1..], c)
  }

  /** `$1`: the longest prefix of `s` without a '.'. */
  function IntPart(s: string): (r: string)
    ensures '.' !in r
  {
    Before(s, '.')
  }

  /** `$2 ? $2 : ""`: the first '.' with the characters after it up to the next
      newline, or "" when `s` has no '.'. The match ends at that newline, so
      anything after it takes no part in the result. */
  function DecPart(s: string): (r: string)
    ensures r != [] ==> r[0] == '.' && '\n' !in r
  {
    if s == [] then []
    else if s[0] == '.' then ['.'] + Before(s[1..], '\n')
    else DecPart(s[1..])
  }

  /** The fraction part is empty exactly when there is no '.'. */
  lemma {:induction false} DecPartEmpty(s: string)
    ensures DecPart(s) == [] <==> '.' !in s
  {
    if s != [] && s[0] != '.' {
      DecPartEmpty(s[1..]);
      Uncons(s);
    }
  }

  lemma {:induction false} BeforeSplit(x: string, y: string, c: char)
    requires c !in x
    requires y == [] || y[0] == c
    ensures Before(x + y, c) == x
  {
    if x == [] {
      assert x + y == y;
    } else {
      HeadTail(x, y);
      BeforeSplit(x[1..], y, c);
    }
  }

  lemma {:induction false} DecPartSplit(x: string, y: string)
    requires '.' !in x
    ensures DecPart(x + y) == DecPart(y)
  {
    if x == [] {
      assert x + y == y;
    } else {
      HeadTail(x, y);
      DecPartSplit(x[1..], y);
    }
  }

  /** Where `x` has no '.' and `y` is empty or starts with one, `x` is the integer part
      of `x + y`, and its fraction part is that of `y`. */
  lemma SplitAtDot(x: string, y: string)
    requires '.' !in x
    requires y == [] || y[0] == '.'
    ensures IntPart(x + y) == x
    ensures DecPart(x + y) == DecPart(y)
  {
    BeforeSplit(x, y, '.');
    DecPartSplit(x, y);
  }

  /** Where the text has no `c`, all of it comes before the first `c`: `.*` takes all
      of a text without a newline. */
  lemma {:induction false} BeforeWhole(s: string, c: char)
    requires c !in s
    ensures Before(s, c) == s
  {
    if s != [] {
      BeforeWhole(s[1..], c);
      Uncons(s);
    }
  }

  /** A fraction part is its own fraction part. */
  lemma FractionIsDecPart(dec: string)
    requires dec == [] || (dec[0] == '.' && '\n' !in dec)
    ensures IntPart(dec) == [] && DecPart(dec) == dec
  {
    if dec != [] {
      BeforeWhole(dec[1..], '\n');
      Uncons(dec);
    }
  }

  /** Without a newline the regex match covers the whole string. */
  lemma {:induction false} NoNewlineSplitsWhole(s: string)
    requires '\n' !in s
    ensures IntPart(s) + DecPart(s) == s
  {
    if s != [] {
      Uncons(s);
      if s[0] == '.' {
        BeforeWhole(s[1..], '\n');
      } else {
        NoNewlineSplitsWhole(s[1..]);
      }
    }
  }

  // ---------------------------------------------------------------------
  // commas itself

  /** The value `commas(str)` returns. nil gives "". */
  function CommasOf(str: Nilable): (r: string)
    ensures str.None? ==> r == ""
  {
    var s := ToS(str);
    Reverse(GroupAll(Reverse(IntPart(s)))) + DecPart(s)
  }

  /** `commas(str)`, with the `while gsub!` loop over the reversed integer part. */
  method Commas(str: Nilable) returns (r: string)
    ensures r == CommasOf(str)
  {
    var s := ToS(str);
    var w, dec := Reverse(IntPart(s)), DecPart(s);
    ghost var start := w;
    var substituted := true;
    while substituted
      invariant substituted ==> GroupAll(w) == GroupAll(start)
      invariant !substituted ==> w == GroupAll(start)
      decreases if substituted then DigitPairs(w) + 1 else 0
    {
      var p := Scan(w, true);
      ScanShrinksDigitPairs(w, true);
      w, substituted := p.text, p.substituted;
    }
    r := Reverse(w) + dec;
  }

  // ---------------------------------------------------------------------
  // The grouped form

  /** Digits with a comma before every group of three, counted from the right. */
  function Group(d: string): string
    decreases |d|
  {
    if |d| <= 3 then d else Group(d[..|d| - 3]) + "," + d[|d| - 3..]
  }

  /** The same grouping read backwards: groups of three counted from the left. */
  function GroupReversed(v: string): string
    decreases |v|
  {
    if |v| <= 3 then v else v[..3] + "," + GroupReversed(v[3..])
  }

  /** `v` with its first `k` groups of three closed by a comma: what k passes leave. */
  function PartlyGrouped(v: string, k: nat): string
    decreases k
  {
    if k == 0 || |v| <= 3 then v else v[..3] + "," + PartlyGrouped(v[3..], k - 1)
  }

  lemma {:induction false} GroupReverse(d: string)
    ensures Reverse(Group(d)) == GroupReversed(Reverse(d))
    decreases |d|
  {
    if |d| > 3 {
      var n := |d|;
      var a, b := d[..n - 3], d[n - 3..];
      assert d == a + b;
      GroupReverse(a);
      ReverseAppend(Group(a) + ",", b);
      ReverseAppend(Group(a), ",");
      ReverseAppend(a, b);
      assert Reverse(",") == ",";
      var rd := Reverse(d);
      assert rd[..3] == Reverse(b) && rd[3..] == Reverse(a);
    }
  }

  lemma {:induction false} PartlyGroupedDone(v: string, k: nat)
    requires |v| <= 3 * k + 3
    ensures PartlyGrouped(v, k) == GroupReversed(v)
    decreases k
  {
    if k > 0 && |v| > 3 {
      PartlyGroupedDone(v[3..], k - 1);
    }
  }

  lemma {:induction false} ScanNoDigits(x: string, b: bool)
    requires NoDigits(x)
    ensures Scan(x, b) == Pass(x, false)
    decreases |x|
  {
    if x != [] {
      assert !IsDigit(x[0]) && NoDigits(x[1..]);
      assert !FourDigits(x);
      ScanSkip(x, b);
      ScanNoDigits(x[1..], x[0] == '\n');
    }
  }

  /** Digits followed by no digits hold no match, provided `^` is not in force before four
      of them. */
  lemma {:induction false} ScanDigitsThenNoDigits(d: string, suf: string, b: bool)
    requires AllDigits(d) && NoDigits(suf)
    requires b ==> |d| <= 3
    ensures Scan(d + suf, b) == Pass(d + suf, false)
    decreases |d|
  {
    if d == [] {
      assert d + suf == suf;
      ScanNoDigits(suf, b);
    } else {
      HeadTail(d, suf);
      assert b ==> !FourDigits(d + suf) by {
        if b && |d| < |d + suf| { assert !IsDigit((d + suf)[|d|]); }
      }
      ScanSkip(d + suf, b);
      ScanDigitsThenNoDigits(d[1..], suf, false);
    }
  }

  lemma Uncons(s: string)
    requires s != []
    ensures s == [s[0]] + s[1..]
  {
  }

  /** `a + y` split after its first character. */
  lemma HeadTail(a: string, y: string)
    requires a != []
    ensures (a + y)[0] == a[0] && (a + y)[1..] == a[1..] + y
    ensures a + y == [a[0]] + (a[1..] + y)
  {
  }

  /** Up to three digits followed by a comma hold no match: the scan passes over them. */
  lemma {:induction false} ScanShortDigits(a: string, y: string, b: bool)
    requires AllDigits(a) && |a| <= 3
    requires y != [] && y[0] == ','
    ensures Scan(a + y, b) == Pass(a + Scan(y, false).text, Scan(y, false).substituted)
    decreases |a|
  {
    if a == [] {
      assert a + y == y;
      ScanLineStartIrrelevant(y);
    } else {
      HeadTail(a, y);
      assert (a + y)[|a|] == ',';
      ScanSkip(a + y, b);
      ScanShortDigits(a[1..], y, false);
      HeadTail(a, Scan(y, false).text);
    }
  }

  /** How the text after a leading comma lines up with the text after it. */
  lemma CommaCons(x: string, t: string)
    requires |x| >= 4
    ensures ([','] + x)[1..] == x && ([','] + x)[4] == x[3] && ([','] + x)[5..] == x[4..]
    ensures [','] + (x[..3] + [','] + [x[3]] + t) == ([','] + x)[..4] + [','] + [([','] + x)[4]] + t
  {
    assert ([','] + x)[..4] == [','] + x[..3];
  }

  /** A comma anchors the next three digits exactly as a line start does. */
  lemma ScanAfterComma(x: string)
    ensures Scan([','] + x, false) == Pass([','] + Scan(x, true).text, Scan(x, true).substituted)
  {
    assert ([','] + x)[0] == ',' && ([','] + x)[1..] == x;
    if FourDigits(x) {
      CommaCons(x, Scan(x[4..], false).text);
      ScanSeparator([','] + x, false);
      ScanLineStart(x);
    } else {
      ScanSkip([','] + x, false);
      ScanLineStartIrrelevant(x);
    }
  }

  /** One more closed group, seen from the front. */
  lemma PartlyGroupedStep(v: string, k: nat, suf: string)
    requires |v| > 3 && k > 0
    ensures PartlyGrouped(v, k) + suf == v[..3] + ([','] + (PartlyGrouped(v[3..], k - 1) + suf))
  {
  }

  /** The first pass over four or more digits followed by no digits. */
  lemma FirstPass(v: string, suf: string)
    requires |v| > 3
    ensures (v + suf)[4..] == v[4..] + suf
    ensures (v + suf)[..3] + [','] + [(v + suf)[3]] + (v[4..] + suf) == v[..3] + [','] + v[3..] + suf
  {
    assert (v + suf)[..3] == v[..3];
    assert v[3..] == [v[3]] + v[4..];
  }

  /** The first pass over more than three digits followed by no digits closes the first group. */
  lemma ScanFirstGroup(v: string, suf: string)
    requires AllDigits(v) && NoDigits(suf) && |v| > 3
    ensures Scan(v + suf, true) == Pass(PartlyGrouped(v, 1) + suf, true)
  {
    assert FourDigits(v + suf) && !SeparatorMatch(v + suf);
    ScanLineStart(v + suf);
    FirstPass(v, suf);
    ScanDigitsThenNoDigits(v[4..], suf, false);
    assert PartlyGrouped(v, 1) == v[..3] + "," + v[3..];
  }

  /** A pass over a closed group of three digits and its comma goes on as at a line start. */
  lemma ScanPastGroup(g: string, y: string)
    requires AllDigits(g) && |g| == 3
    ensures Scan(g + ([','] + y), true) ==
            Pass(g + ([','] + Scan(y, true).text), Scan(y, true).substituted)
  {
    ScanShortDigits(g, [','] + y, true);
    ScanAfterComma(y);
  }

  /** A pass over the first closed group passes on to the groups after it. */
  lemma ScanClosedGroup(v: string, k: nat, suf: string)
    requires AllDigits(v) && |v| > 3 && k > 0
    requires Scan(PartlyGrouped(v[3..], k - 1) + suf, true) ==
             if |v| > 3 * k + 3 then Pass(PartlyGrouped(v[3..], k) + suf, true)
             else Pass(PartlyGrouped(v[3..], k - 1) + suf, false)
    ensures Scan(PartlyGrouped(v, k) + suf, true) ==
            if |v| > 3 * k + 3 then Pass(PartlyGrouped(v, k + 1) + suf, true)
            else Pass(PartlyGrouped(v, k) + suf, false)
  {
    PartlyGroupedStep(v, k, suf);
    ScanPastGroup(v[..3], PartlyGrouped(v[3..], k - 1) + suf);
    if |v| > 3 * k + 3 {
      PartlyGroupedStep(v, k + 1, suf);
    }
  }

  /** A pass over `k` closed groups followed by the rest of the digits closes the next group,
      if more than three digits remain. */
  lemma {:induction false} ScanPartlyGrouped(v: string, k: nat, suf: string)
    requires AllDigits(v) && NoDigits(suf)
    ensures Scan(PartlyGrouped(v, k) + suf, true) ==
            if |v| > 3 * k + 3 then Pass(PartlyGrouped(v, k + 1) + suf, true)
            else Pass(PartlyGrouped(v, k) + suf, false)
    decreases k
  {
    if |v| <= 3 {
      assert PartlyGrouped(v, k) == v;
      ScanDigitsThenNoDigits(v, suf, true);
    } else if k == 0 {
      assert PartlyGrouped(v, k) == v;
      ScanFirstGroup(v, suf);
    } else {
      ScanPartlyGrouped(v[3..], k - 1, suf);
      ScanClosedGroup(v, k, suf);
    }
  }

  lemma {:induction false} GroupAllPartlyGrouped(v: string, k: nat, suf: string)
    requires AllDigits(v) && NoDigits(suf)
    ensures GroupAll(PartlyGrouped(v, k) + suf) == GroupReversed(v) + suf
    decreases if |v| > 3 * k then |v| - 3 * k else 0
  {
    ScanPartlyGrouped(v, k, suf);
    if |v| > 3 * k + 3 {
      GroupAllPartlyGrouped(v, k + 1, suf);
    } else {
      PartlyGroupedDone(v, k);
    }
  }

  /** The loop on the reversed integer part, for an optional '-' and digits. */
  lemma GroupAllSignedDigits(sign: string, d: string)
    requires sign == "" || sign == "-"
    requires AllDigits(d)
    ensures Reverse(GroupAll(Reverse(sign + d))) == sign + Group(d)
  {
    ReverseAppend(sign, d);
    assert Reverse(sign) == sign;
    var v := Reverse(d);
    assert AllDigits(v);
    assert NoDigits(sign);
    assert PartlyGrouped(v, 0) == v;
    GroupAllPartlyGrouped(v, 0, sign);
    ReverseAppend(GroupReversed(v), sign);
    GroupReverse(d);
    ReverseReverse(Group(d));
  }

  /** What `commas` does to an integer part `x` without a '.' followed by a fraction part `y`. */
  lemma CommasOfSplit(x: string, y: string)
    requires '.' !in x
    requires y == "" || (y[0] == '.' && '\n' !in y)
    ensures CommasOf(Some(x + y)) == Reverse(GroupAll(Reverse(x))) + y
  {
    SplitAtDot(x, y);
    FractionIsDecPart(y);
  }

  lemma NoDotInSignedDigits(sign: string, d: string)
    requires sign == "" || sign == "-"
    requires AllDigits(d)
    ensures '.' !in sign + d
  {
    assert forall i :: 0 <= i < |sign + d| ==> (sign + d)[i] == '-' || IsDigit((sign + d)[i]);
  }

  /** For an integer part made of an optional '-' and digits, followed by a fraction part,
      `commas` returns the sign, the digits grouped in threes from the right, and the
      fraction part unchanged. An integer part of at most three digits comes back as it was. */
  lemma CommasGroupsThousands(sign: string, d: string, dec: string)
    requires sign == "" || sign == "-"
    requires AllDigits(d)
    requires dec == "" || (dec[0] == '.' && '\n' !in dec)
    ensures CommasOf(Some(sign + d + dec)) == sign + Group(d) + dec
    ensures |d| <= 3 ==> CommasOf(Some(sign + d + dec)) == sign + d + dec
  {
    NoDotInSignedDigits(sign, d);
    CommasOfSplit(sign + d, dec);
    GroupAllSignedDigits(sign, d);
  }

  // ---------------------------------------------------------------------
  // Shape of the grouped form

  lemma DigitsHaveNoComma(b: string)
    requires AllDigits(b)
    ensures RemoveCommas(b) == b
  {
    assert ',' !in b by { assert forall i :: 0 <= i < |b| ==> IsDigit(b[i]); }
  }

  /** Deleting the commas from the grouped form gives back the digits. */
  lemma {:induction false} GroupKeepsDigits(d: string)
    requires AllDigits(d)
    ensures RemoveCommas(Group(d)) == d
    decreases |d|
  {
    if |d| > 3 {
      var a, b := d[..|d| - 3], d[|d| - 3..];
      assert Group(d) == Group(a) + [','] + b;
      GroupKeepsDigits(a);
      RemoveCommasComma(Group(a), b);
      DigitsHaveNoComma(b);
      assert d == a + b;
    }
  }

  /** Commas stand exactly at the positions 4, 8, 12, ... counted from the right end
      (the last character being position 1). */
  predicate CommasEveryFourth(g: string) {
    forall i :: 0 <= i < |g| ==> (g[i] == ',' <==> (|g| - i) % 4 == 0)
  }

  lemma CommasEveryFourthStep(ga: string, b: string)
    requires CommasEveryFourth(ga)
    requires |b| == 3 && AllDigits(b)
    ensures CommasEveryFourth(ga + [','] + b)
  {
    var g := ga + [','] + b;
    forall i | 0 <= i < |g| ensures g[i] == ',' <==> (|g| - i) % 4 == 0 {
      if i < |ga| {
        assert g[i] == ga[i];
        assert (|g| - i) % 4 == (|ga| - i) % 4;
      } else if i > |ga| {
        assert g[i] == b[i - |ga| - 1];
      }
    }
  }

  lemma DigitsEveryFourth(d: string)
    requires AllDigits(d) && |d| <= 3
    ensures CommasEveryFourth(d)
  {
    forall i | 0 <= i < |d| ensures d[i] == ',' <==> (|d| - i) % 4 == 0 {
      assert IsDigit(d[i]);
    }
  }

  /** The commas of the grouped form of n >= 1 digits stand exactly at every fourth position
      counted from the right end; so there are (n - 1) / 3 of them, none leading and none trailing. */
  lemma {:induction false} GroupCommaPositions(d: string)
    requires AllDigits(d) && |d| >= 1
    ensures |Group(d)| == |d| + (|d| - 1) / 3
    ensures CommasEveryFourth(Group(d))
    ensures Group(d)[0] != ',' && Group(d)[|Group(d)| - 1] != ','
    decreases |d|
  {
    if |d| <= 3 {
      DigitsEveryFourth(d);
      assert IsDigit(d[0]) && IsDigit(d[|d| - 1]);
    } else {
      var a, b := d[..|d| - 3], d[|d| - 3..];
      assert Group(d) == Group(a) + [','] + b;
      GroupCommaPositions(a);
      CommasEveryFourthStep(Group(a), b);
      assert IsDigit(b[2]);
    }
  }

  /** The number of commas in `s`. */
  function CountCommas(s: string): (n: nat)
    ensures n + |RemoveCommas(s)| == |s|
  {
    if s == [] then 0
    else (if s[0] == ',' then 1 else 0) + CountCommas(s[1..])
  }

  /** n >= 1 digits get exactly (n - 1) / 3 commas. */
  lemma GroupCommaCount(d: string)
    requires AllDigits(d) && |d| >= 1
    ensures CountCommas(Group(d)) == (|d| - 1) / 3
  {
    GroupKeepsDigits(d);
    GroupCommaPositions(d);
  }

  // ---------------------------------------------------------------------
  // commas only inserts commas, and is idempotent

  lemma RemoveCommasComma(x: string, y: string)
    ensures RemoveCommas(x + [','] + y) == RemoveCommas(x) + RemoveCommas(y)
  {
    RemoveCommasAppend(x + [','], y);
    RemoveCommasAppend(x, [',']);
    assert RemoveCommas([',']) == [];
  }

  /** The comma a substitution puts between the three digits `a` ends with and the digit `c`. */
  lemma InsertedAtMatch(a: string, c: char, rest: string, r: string)
    requires c != ','
    requires CommasInserted(rest, r)
    ensures CommasInserted(a + [c] + rest, a + [','] + [c] + r)
  {
    InsertedRefl(a);
    InsertedCons(c, rest, r);
    InsertedComma([c] + rest, [c] + r);
    InsertedAppend(a, a, [c] + rest, [','] + ([c] + r));
    RegroupComma(a, c, r);
    RegroupComma(a, c, rest);
    assert a + [','] + ([c] + r) == a + ([','] + ([c] + r));
  }

  /** A pass only inserts commas: the commas the text had, and everything else in it,
      stay in order, since each match re-emits its separator `\1` and its digits. */
  lemma {:induction false} ScanOnlyInsertsCommas(s: string, b: bool)
    ensures CommasInserted(s, Scan(s, b).text)
    ensures RemoveCommas(Scan(s, b).text) == RemoveCommas(s)
    decreases |s|
  {
    if SeparatorMatch(s) {
      ScanSeparator(s, b);
      ScanOnlyInsertsCommas(s[5..], false);
      SplitAround(s, 4);
      InsertedAtMatch(s[..4], s[4], s[5..], Scan(s[5..], false).text);
    } else if b && FourDigits(s) {
      ScanLineStart(s);
      ScanOnlyInsertsCommas(s[4..], false);
      SplitAround(s, 3);
      InsertedAtMatch(s[..3], s[3], s[4..], Scan(s[4..], false).text);
    } else if s != [] {
      ScanSkip(s, b);
      ScanOnlyInsertsCommas(s[1..], s[0] == '\n');
      Uncons(s);
      InsertedCons(s[0], s[1..], Scan(s[1..], s[0] == '\n').text);
    } else {
      InsertedRefl(s);
    }
    InsertedRemoveCommas(s, Scan(s, b).text);
  }

  /** The whole loop only inserts commas. */
  lemma {:induction false} GroupAllOnlyInsertsCommas(w: string)
    ensures CommasInserted(w, GroupAll(w))
    ensures RemoveCommas(GroupAll(w)) == RemoveCommas(w)
    decreases DigitPairs(w)
  {
    var p := Scan(w, true);
    if p.substituted {
      ScanShrinksDigitPairs(w, true);
      ScanOnlyInsertsCommas(w, true);
      GroupAllOnlyInsertsCommas(p.text);
      InsertedTrans(w, p.text, GroupAll(p.text));
    } else {
      InsertedRefl(w);
    }
    InsertedRemoveCommas(w, GroupAll(w));
  }

  /** `commas` only inserts commas: the result is the input with commas inserted, so
      deleting every comma from it gives the input with its commas deleted, and an input
      without commas comes back exactly. This needs the regex match to cover the whole
      input, which it does when no newline follows the first '.'. */
  lemma CommasOnlyInsertsCommas(s: string)
    requires IntPart(s) + DecPart(s) == s
    ensures CommasInserted(s, CommasOf(Some(s)))
    ensures RemoveCommas(CommasOf(Some(s))) == RemoveCommas(s)
    ensures ',' !in s ==> RemoveCommas(CommasOf(Some(s))) == s
  {
    var i, d := IntPart(s), DecPart(s);
    var g := GroupAll(Reverse(i));
    GroupAllOnlyInsertsCommas(Reverse(i));
    InsertedReverse(Reverse(i), g);
    ReverseReverse(i);
    InsertedRefl(d);
    InsertedAppend(i, Reverse(g), d, d);
    InsertedRemoveCommas(s, CommasOf(Some(s)));
  }

  /** Everything from the first '.' up to the next newline is copied unchanged to the end
      of the result, and what comes before it contains no '.'. */
  lemma CommasKeepsFraction(str: Nilable)
    ensures var r := CommasOf(str); var dec := DecPart(ToS(str));
            |dec| <= |r| && r[|r| - |dec|..] == dec && '.' !in r[..|r| - |dec|]
  {
    var s := ToS(str);
    var w := Reverse(IntPart(s));
    var g := GroupAll(w);
    NoDotInGrouped(IntPart(s));
    var r := CommasOf(str);
    assert r == Reverse(g) + DecPart(s);
    assert r[..|r| - |DecPart(s)|] == Reverse(g);
  }

  lemma ReverseHas(s: string, c: char)
    ensures c in Reverse(s) <==> c in s
  {
    if c in s {
      var i :| 0 <= i < |s| && s[i] == c;
      assert Reverse(s)[|s| - 1 - i] == c;
    }
    if c in Reverse(s) {
      var i :| 0 <= i < |s| && Reverse(s)[i] == c;
      assert s[|s| - 1 - i] == c;
    }
  }

  /** The grouped integer part has no '.'. */
  lemma NoDotInGrouped(i: string)
    requires '.' !in i
    ensures '.' !in Reverse(GroupAll(Reverse(i)))
  {
    var w := Reverse(i);
    ReverseHas(i, '.');
    GroupAllOnlyInsertsCommas(w);
    RemoveCommasKeeps(w, '.');
    RemoveCommasKeeps(GroupAll(w), '.');
    ReverseHas(GroupAll(w), '.');
  }

  /** Applying `commas` to its own result changes nothing. */
  lemma CommasIdempotent(str: Nilable)
    ensures CommasOf(Some(CommasOf(str))) == CommasOf(str)
  {
    var s := ToS(str);
    var g := GroupAll(Reverse(IntPart(s)));
    var x, d := Reverse(g), DecPart(s);
    NoDotInGrouped(IntPart(s));
    SplitAtDot(x, d);
    FractionIsDecPart(d);
    ReverseReverse(g);
    assert GroupAll(g) == g;
  }

  /** A value already in grouped form, such as "1,234,567.89", comes back unchanged. */
  lemma CommasLeavesGroupedUnchanged(sign: string, d: string, dec: string)
    requires sign == "" || sign == "-"
    requires AllDigits(d)
    requires dec == "" || (dec[0] == '.' && '\n' !in dec)
    ensures CommasOf(Some(sign + Group(d) + dec)) == sign + Group(d) + dec
  {
    CommasGroupsThousands(sign, d, dec);
    CommasIdempotent(Some(sign + d + dec));
  }

  /** The grouped forms of "1234" and "1234567", which `CommasGroupsThousands` turns into
      the results of `commas` on them (with or without a sign and a fraction part). */
  lemma GroupExamples()
    ensures Group("1234") == "1,234"
    ensures Group("1234567") == "1,234,567"
  {
    assert Group("1") == "1";
    assert "1234567"[..4] == "1234";
  }

  /** `commas` on "1234567", "-1234" and "123.45". Each example takes its string as the
      parameter `s`: a call on a literal argument lets the verifier unfold `CommasOf`
      without bound, while a call on `s` unfolds only as far as the proof asks. */
  lemma CommasSevenDigits(s: string)
    requires s == "1234567"
    ensures CommasOf(Some(s)) == "1,234,567"
  {
    assert Group(s) == "1,234,567" by { GroupExamples(); }
    assert s == "" + s + "";
    assert AllDigits(s);
    CommasGroupsThousands("", s, "");
  }

  lemma CommasNegative(s: string)
    requires s == "-1234"
    ensures CommasOf(Some(s)) == "-1,234"
  {
    var d := "1234";
    assert s == "-" + d + "";
    assert AllDigits(d);
    assert Group(d) == "1,234" by { GroupExamples(); }
    CommasGroupsThousands("-", d, "");
    assert "-" + Group(d) + "" == "-1,234";
  }

  lemma CommasShort(s: string)
    requires s == "123.45"
    ensures CommasOf(Some(s)) == s
  {
    assert s == "" + "123" + ".45";
    CommasGroupsThousands("", "123", ".45");
  }
}
