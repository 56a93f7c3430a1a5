/** The few pieces of Ruby's String, Array and Regexp behaviour that the
    handler relies on, each written out for the one pattern it is used with. */
module Strings {

  /** Ruby's `\d`: an ASCII digit. */
  predicate IsDigit(c: char) { '0' <= c <= '9' }

  /** Ruby's `[A-Z]`. */
  predicate IsUpper(c: char) { 'A' <= c <= 'Z' }

  /** Ruby's `[a-z]`. */
  predicate IsLower(c: char) { 'a' <= c <= 'z' }

  predicate AllDigits(s: string) { forall i :: 0 <= i < |s| ==> IsDigit(s[i]) }

  predicate NoDigits(s: string) { forall i :: 0 <= i < |s| ==> !IsDigit(s[i]) }

  /** `x =~ /[A-Z]+/`: the unanchored pattern matches as soon as one upper-case letter occurs. */
  predicate HasUpper(x: string) { exists i :: 0 <= i < |x| && IsUpper(x[i]) }

  /** `x =~ /[a-z]+/`. */
  predicate HasLower(x: string) { exists i :: 0 <= i < |x| && IsLower(x[i]) }

  /** `String#reverse`. */
  function Reverse(s: string): (r: string)
    ensures |r| == |s|
    ensures forall i :: 0 <= i < |s| ==> r[i] == s[|s| - 1 - i]
  {
    if s == [] then [] else Reverse(s[1..]) + [s[0]]
  }

  lemma ReverseAppend(a: string, b: string)
    ensures Reverse(a + b) == Reverse(b) + Reverse(a)
  {
    var l, r := Reverse(a + b), Reverse(b) + Reverse(a);
    assert |l| == |r|;
    forall i | 0 <= i < |l| ensures l[i] == r[i] {
      if i < |b| {
        assert r[i] == Reverse(b)[i];
      } else {
        assert r[i] == Reverse(a)[i - |b|];
      }
    }
  }

  lemma ReverseReverse(s: string)
    ensures Reverse(Reverse(s)) == s
  {
    var r := Reverse(Reverse(s));
    assert |r| == |s|;
    forall i | 0 <= i < |s| ensures r[i] == s[i] {
      assert r[i] == Reverse(s)[|s| - 1 - i];
    }
  }

  /** The string with every ',' deleted. */
  function RemoveCommas(s: string): (r: string)
    ensures |r| <= |s|
    ensures ',' !in r
    ensures ',' !in s ==> r == s
  {
    if s == [] then []
    else if s[0] == ',' then RemoveCommas(s[1..])
    else [s[0]] + RemoveCommas(s[1..])
  }

  lemma {:induction false} RemoveCommasAppend(a: string, b: string)
    ensures RemoveCommas(a + b) == RemoveCommas(a) + RemoveCommas(b)
  {
    if a == [] {
      assert a + b == b;
    } else {
      assert (a + b)[1..] == a[1..] + b;
      RemoveCommasAppend(a[1..], b);
    }
  }

  /** A character other than ',' is in the string exactly when it is in the string with the commas deleted. */
  lemma {:induction false} RemoveCommasKeeps(s: string, c: char)
    requires c != ','
    ensures c in RemoveCommas(s) <==> c in s
  {
    if s != [] {
      RemoveCommasKeeps(s[1..], c);
      assert s == [s[0]] + s[1..];
    }
  }

  /** `t` is `s` with commas inserted: dropping some of the commas of `t`, and
      nothing else, gives `s`. */
  predicate CommasInserted(s: string, t: string)
    decreases |t|
  {
    if t == [] then s == []
    else if t[0] == ',' then
      CommasInserted(s, t[1..]) || (s != [] && s[0] == ',' && CommasInserted(s[1..], t[1..]))
    else s != [] && s[0] == t[0] && CommasInserted(s[1..], t[1..])
  }

  /** A common first character keeps the relation. */
  lemma InsertedCons(c: char, s: string, t: string)
    requires CommasInserted(s, t)
    ensures CommasInserted([c] + s, [c] + t)
  {
    assert ([c] + s)[1..] == s && ([c] + t)[1..] == t;
  }

  /** One comma in front. */
  lemma InsertedComma(s: string, t: string)
    requires CommasInserted(s, t)
    ensures CommasInserted(s, [','] + t)
  {
    assert ([','] + t)[1..] == t;
  }

  lemma {:induction false} InsertedRefl(s: string)
    ensures CommasInserted(s, s)
  {
    if s != [] {
      InsertedRefl(s[1..]);
      InsertedCons(s[0], s[1..], s[1..]);
      assert [s[0]] + s[1..] == s;
    }
  }

  /** Inserting commas twice inserts commas. */
  lemma {:induction false} InsertedTrans(a: string, b: string, c: string)
    requires CommasInserted(a, b) && CommasInserted(b, c)
    ensures CommasInserted(a, c)
    decreases |c|
  {
    if c == [] {
    } else if c[0] != ',' {
      InsertedTrans(a[1..], b[1..], c[1..]);
    } else if CommasInserted(b, c[1..]) {
      InsertedTrans(a, b, c[1..]);
    } else if CommasInserted(a, b[1..]) {
      InsertedTrans(a, b[1..], c[1..]);
    } else {
      InsertedTrans(a[1..], b[1..], c[1..]);
    }
  }

  /** Two insertions side by side. */
  lemma {:induction false} InsertedAppend(a1: string, b1: string, a2: string, b2: string)
    requires CommasInserted(a1, b1) && CommasInserted(a2, b2)
    ensures CommasInserted(a1 + a2, b1 + b2)
    decreases |b1|
  {
    if b1 == [] {
      assert a1 + a2 == a2 && b1 + b2 == b2;
    } else {
      assert b1 + b2 == [b1[0]] + (b1[1..] + b2);
      if b1[0] == ',' && CommasInserted(a1, b1[1..]) {
        InsertedAppend(a1, b1[1..], a2, b2);
        InsertedComma(a1 + a2, b1[1..] + b2);
      } else {
        InsertedAppend(a1[1..], b1[1..], a2, b2);
        assert a1 + a2 == [a1[0]] + (a1[1..] + a2);
        InsertedCons(a1[0], a1[1..] + a2, b1[1..] + b2);
      }
    }
  }

  /** Read backwards, the commas are still only inserted. */
  lemma {:induction false} InsertedReverse(s: string, t: string)
    requires CommasInserted(s, t)
    ensures CommasInserted(Reverse(s), Reverse(t))
    decreases |t|
  {
    if t != [] {
      assert Reverse(t) == Reverse(t[1..]) + [t[0]];
      if t[0] == ',' && CommasInserted(s, t[1..]) {
        InsertedReverse(s, t[1..]);
        assert CommasInserted([], [',']) by { assert [','][1..] == []; }
        InsertedAppend(Reverse(s), Reverse(t[1..]), [], [',']);
        assert Reverse(s) + [] == Reverse(s);
      } else {
        InsertedReverse(s[1..], t[1..]);
        assert Reverse(s) == Reverse(s[1..]) + [s[0]];
        assert CommasInserted([s[0]], [t[0]]) by { assert [t[0]][1..] == [] && [s[0]][1..] == []; }
        InsertedAppend(Reverse(s[1..]), Reverse(t[1..]), [s[0]], [t[0]]);
      }
    }
  }

  /** Deleting every comma forgets where commas were inserted. */
  lemma {:induction false} InsertedRemoveCommas(s: string, t: string)
    requires CommasInserted(s, t)
    ensures RemoveCommas(t) == RemoveCommas(s)
    decreases |t|
  {
    if t != [] {
      if t[0] == ',' && CommasInserted(s, t[1..]) {
        InsertedRemoveCommas(s, t[1..]);
      } else {
        InsertedRemoveCommas(s[1..], t[1..]);
      }
    }
  }

  /** Apart from commas, the inserted text has exactly the characters of the original. */
  lemma InsertedKeeps(s: string, t: string, c: char)
    requires CommasInserted(s, t) && c != ','
    ensures c in t <==> c in s
  {
    InsertedRemoveCommas(s, t);
    RemoveCommasKeeps(s, c);
    RemoveCommasKeeps(t, c);
  }

  /** `pat` occurs in `s` starting at index `i`. */
  predicate OccursAt(s: string, pat: string, i: int) {
    0 <= i <= |s| - |pat| && s[i..i + |pat|] == pat
  }

  /** `s.include?(pat)`, scanning the start positions from left to right. */
  function Includes(s: string, pat: string): (b: bool)
    ensures b <==> exists i :: OccursAt(s, pat, i)
    decreases |s|
  {
    if |s| < |pat| then false
    else if s[..|pat|] == pat then assert OccursAt(s, pat, 0); true
    else
      var b := Includes(s[1..], pat);
      assert b ==> exists i :: OccursAt(s, pat, i) by {
        if b {
          var j :| OccursAt(s[1..], pat, j);
          assert s[j + 1..j + 1 + |pat|] == s[1..][j..j + |pat|];
          assert OccursAt(s, pat, j + 1);
        }
      }
      assert (exists i :: OccursAt(s, pat, i)) ==> b by {
        if i :| OccursAt(s, pat, i) {
          assert i != 0;
          assert s[1..][i - 1..i - 1 + |pat|] == s[i..i + |pat|];
          assert OccursAt(s[1..], pat, i - 1);
        }
      }
      b
  }

  /** `s.gsub(' ', '')`: every space deleted, everything else kept in order. */
  function RemoveSpaces(s: string): (r: string)
    ensures ' ' !in r
    ensures forall c :: c != ' ' ==> (c in r <==> c in s)
    ensures ' ' !in s ==> r == s
  {
    if s == [] then []
    else if s[0] == ' ' then RemoveSpaces(s[1..])
    else [s[0]] + RemoveSpaces(s[1..])
  }

  /** Deleting the spaces of two texts one after the other. */
  lemma {:induction false} RemoveSpacesAppend(a: string, b: string)
    ensures RemoveSpaces(a + b) == RemoveSpaces(a) + RemoveSpaces(b)
  {
    if a == [] {
      assert a + b == b;
    } else {
      assert (a + b)[1..] == a[1..] + b;
      RemoveSpacesAppend(a[1..], b);
    }
  }

  /** A space goes, any other character stays: with `RemoveSpacesAppend` this gives the
      result character by character, in order. */
  lemma RemoveSpacesOne(c: char)
    ensures RemoveSpaces([c]) == if c == ' ' then [] else [c]
  {
    assert [c][1..] == [];
  }

  /** `xs.join(sep)`. */
  function Join(xs: seq<string>, sep: string): (r: string)
    ensures xs == [] ==> r == ""
    ensures |xs| == 1 ==> r == xs[0]
  {
    if xs == [] then ""
    else if |xs| == 1 then xs[0]
    else xs[0] + sep + Join(xs[1..], sep)
  }

  /** The pieces of `s` between occurrences of `c`, empty pieces included, so that
      "a b" gives ["a", "b"] and "" gives [""]. */
  function Split(s: string, c: char): (r: seq<string>)
    ensures |r| >= 1
  {
    if s == [] then [""]
    else if s[0] == c then [""] + Split(s[1..], c)
    else var t := Split(s[1..], c); [[s[0]] + t[0]] + t[1..]
  }

  lemma {:induction false} SplitNoSeparator(x: string, c: char)
    requires c !in x
    ensures Split(x, c) == [x]
  {
    if x != [] {
      SplitNoSeparator(x[1..], c);
      assert x == [x[0]] + x[1..];
    }
  }

  lemma ConsSplit(x: string, c: char, y: string)
    requires x != []
    ensures (x + [c] + y)[0] == x[0]
    ensures (x + [c] + y)[1..] == x[1..] + [c] + y
    ensures [x[0]] + x[1..] == x
  {
  }

  /** The first piece runs up to the first separator. */
  lemma {:induction false} SplitAfterPiece(x: string, c: char, y: string)
    requires c !in x
    ensures Split(x + [c] + y, c) == [x] + Split(y, c)
  {
    if x == [] {
      assert (x + [c] + y)[1..] == y;
    } else {
      ConsSplit(x, c, y);
      SplitAfterPiece(x[1..], c, y);
    }
  }

  /** Splitting at the separator undoes joining with it, when no piece contains it. */
  lemma {:induction false} SplitJoin(xs: seq<string>, c: char)
    requires xs != []
    requires forall i :: 0 <= i < |xs| ==> c !in xs[i]
    ensures Split(Join(xs, [c]), c) == xs
  {
    if |xs| == 1 {
      SplitNoSeparator(xs[0], c);
    } else {
      SplitAfterPiece(xs[0], c, Join(xs[1..], [c]));
      SplitJoin(xs[1..], c);
      assert xs == [xs[0]] + xs[1..];
    }
  }

  lemma JoinCons(x: string, ys: seq<string>, sep: string)
    requires ys != []
    ensures Join([x] + ys, sep) == x + sep + Join(ys, sep)
  {
    assert ([x] + ys)[1..] == ys;
  }

  /** `xs.delete(x)` on an Array: every element equal to `x` is removed, the others keep their order. */
  function Delete(xs: seq<string>, x: string): (r: seq<string>)
    ensures x !in r
    ensures forall y :: y != x ==> (y in r <==> y in xs)
    ensures x !in xs ==> r == xs
  {
    if xs == [] then []
    else
      assert xs == [xs[0]] + xs[1..];
      if xs[0] == x then Delete(xs[1..], x)
      else [xs[0]] + Delete(xs[1..], x)
  }

  /** Exactly the occurrences of `x` go: the result is shorter by their number. */
  lemma {:induction false} DeleteCount(xs: seq<string>, x: string)
    ensures |Delete(xs, x)| == |xs| - multiset(xs)[x]
  {
    if xs != [] {
      DeleteCount(xs[1..], x);
      assert xs == [xs[0]] + xs[1..];
    }
  }

  lemma DeleteCons(x: string, xs: seq<string>, y: string)
    ensures Delete([x] + xs, y) == Kept(x, y) + Delete(xs, y)
  {
    assert ([x] + xs)[1..] == xs;
  }

  /** Deleting from two lists one after the other: the elements kept stay in order. */
  lemma {:induction false} DeleteAppend(xs: seq<string>, ys: seq<string>, x: string)
    ensures Delete(xs + ys, x) == Delete(xs, x) + Delete(ys, x)
  {
    if xs == [] {
      assert xs + ys == ys;
    } else {
      var h, t := xs[0], xs[1..];
      calc {
        Delete(xs + ys, x);
        { assert xs + ys == [h] + (t + ys); }
        Delete([h] + (t + ys), x);
        { DeleteCons(h, t + ys, x); }
        Kept(h, x) + Delete(t + ys, x);
        { DeleteAppend(t, ys, x); }
        Kept(h, x) + (Delete(t, x) + Delete(ys, x));
        (Kept(h, x) + Delete(t, x)) + Delete(ys, x);
        { DeleteCons(h, t, x); }
        Delete([h] + t, x) + Delete(ys, x);
        { assert xs == [h] + t; }
        Delete(xs, x) + Delete(ys, x);
      }
    }
  }

  /** What deleting `x` keeps of the one element `y`. */
  function Kept(y: string, x: string): seq<string> {
    if y == x then [] else [y]
  }

  /** The value deleted goes, any other element stays. */
  lemma DeleteOne(y: string, x: string)
    ensures Delete([y], x) == Kept(y, x)
  {
    assert [y][1..] == [];
  }

  /** `xs.each { |x| r += f(x) }` from an empty `r`: the texts of the elements, in order. */
  function ConcatMap<T>(xs: seq<T>, f: T -> string): (r: string)
    ensures xs == [] ==> r == ""
  {
    if xs == [] then "" else ConcatMap(xs[..|xs| - 1], f) + f(xs[|xs| - 1])
  }

  lemma ConcatMapLast<T>(xs: seq<T>, f: T -> string)
    requires xs != []
    ensures ConcatMap(xs, f) == ConcatMap(xs[..|xs| - 1], f) + f(xs[|xs| - 1])
  {
  }

  /** Appending the text of one more element. */
  lemma ConcatMapStep<T>(xs: seq<T>, i: nat, f: T -> string)
    requires i < |xs|
    ensures ConcatMap(xs[..i + 1], f) == ConcatMap(xs[..i], f) + f(xs[i])
  {
    assert xs[..i + 1][..i] == xs[..i];
  }

  lemma ConcatMapOne<T>(x: T, f: T -> string)
    ensures ConcatMap([x], f) == f(x)
  {
    assert [x][..0] == [];
  }

  lemma {:induction false} ConcatMapAppend<T>(xs: seq<T>, ys: seq<T>, f: T -> string)
    ensures ConcatMap(xs + ys, f) == ConcatMap(xs, f) + ConcatMap(ys, f)
    decreases |ys|
  {
    if ys == [] {
      assert xs + ys == xs;
    } else {
      var zs := ys[..|ys| - 1];
      assert (xs + ys)[..|xs + ys| - 1] == xs + zs;
      assert (xs + ys)[|xs + ys| - 1] == ys[|ys| - 1];
      ConcatMapAppend(xs, zs, f);
    }
  }
}
