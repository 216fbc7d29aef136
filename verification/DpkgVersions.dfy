/** The order of Debian version numbers (section 5.6.12 of the Debian Policy Manual):
    version_compare_part, version_compare and test_version of dpkg.c. Texts are C
    strings without their terminator. */
module DpkgVersions {
  import opened Options
  import opened Bits

  type Text = s: seq<byte> | forall i :: 0 <= i < |s| ==> s[i] != 0

  const ZERO: byte := 48
  const TILDE: byte := 126
  const COLON: byte := 58
  const DASH: byte := 45

  predicate IsDigit(c: byte)
  {
    48 <= c <= 57
  }

  predicate IsAlpha(c: byte)
  {
    65 <= c <= 90 || 97 <= c <= 122
  }

  /** What stands at position i, the terminator included. */
  function At(s: Text, i: nat): byte
    requires i <= |s|
  {
    if i < |s| then s[i] else 0
  }

  function Order(x: byte): int
  {
    if x == TILDE then -1
    else if x == 0 then 0
    else if IsDigit(x) then 0
    else if IsAlpha(x) then x
    else x + 256
  }

  /** Characters other than digits are told apart by their order. */
  lemma OrderInjective(x: byte, y: byte)
    requires Order(x) == Order(y)
    ensures x == y || ((x == 0 || IsDigit(x)) && (y == 0 || IsDigit(y)))
  {
  }

  // ---------- what a version is compared by ----------

  /** The orders of the characters up to the first digit and a 0, then the number that
      starts there, and so on in turn. */
  function KeyText(s: Text): seq<int>
    decreases |s|, 1
  {
    if s == [] then []
    else if IsDigit(s[0]) then [0] + KeyNumber(s, 0)
    else [Order(s[0])] + KeyText(s[1..])
  }

  function KeyNumber(s: Text, acc: nat): seq<int>
    decreases |s|, if s != [] && IsDigit(s[0]) then 0 else 2
  {
    if s != [] && IsDigit(s[0]) then KeyNumber(s[1..], 10 * acc + (s[0] - ZERO))
    else [acc] + KeyText(s)
  }

  function Head(x: seq<int>): int
  {
    if x == [] then 0 else x[0]
  }

  function Tail(x: seq<int>): seq<int>
  {
    if x == [] then [] else x[1..]
  }

  /** -1, 0 or 1: lexicographic order, with zeros added at the end as needed. */
  function Lex(x: seq<int>, y: seq<int>): (r: int)
    ensures -1 <= r <= 1
    decreases |x| + |y|
  {
    if x == [] && y == [] then 0
    else if Head(x) < Head(y) then -1
    else if Head(x) > Head(y) then 1
    else Lex(Tail(x), Tail(y))
  }

  lemma {:induction false} LexSame(x: seq<int>)
    ensures Lex(x, x) == 0
  {
    if x != [] {
      LexSame(x[1..]);
    }
  }

  lemma {:induction false} LexSwap(x: seq<int>, y: seq<int>)
    ensures Lex(y, x) == -Lex(x, y)
    decreases |x| + |y|
  {
    if x != [] || y != [] {
      LexSwap(Tail(x), Tail(y));
    }
  }

  lemma {:induction false} LexTransitive(x: seq<int>, y: seq<int>, z: seq<int>)
    requires Lex(x, y) <= 0 && Lex(y, z) <= 0
    ensures Lex(x, z) <= 0
    ensures Lex(x, y) < 0 || Lex(y, z) < 0 ==> Lex(x, z) < 0
    decreases |x| + |y| + |z|
  {
    if x != [] || y != [] || z != [] {
      if Head(x) == Head(y) == Head(z) {
        LexTail(x, y);
        LexTail(y, z);
        LexTail(x, z);
        LexTransitive(Tail(x), Tail(y), Tail(z));
      }
    }
  }

  /** Equal heads do not matter, even if both are added zeros. */
  lemma LexTail(x: seq<int>, y: seq<int>)
    ensures Head(x) == Head(y) ==> Lex(x, y) == Lex(Tail(x), Tail(y))
    ensures Head(x) != Head(y) ==> Lex(x, y) == (if Head(x) < Head(y) then -1 else 1)
  {
  }

  /** Nothing is like a number 0 and nothing behind it. */
  lemma NothingIsZero(y: seq<int>)
    ensures Lex([], y) == Lex([0, 0], y) && Lex(y, []) == Lex(y, [0, 0])
  {
    LexTail([], y);
    LexTail([0, 0], y);
    LexTail(Tail([]), Tail(y));
    LexTail(Tail([0, 0]), Tail(y));
    LexTail(y, []);
    LexTail(y, [0, 0]);
    LexTail(Tail(y), Tail([]));
    LexTail(Tail(y), Tail([0, 0]));
    assert Tail(Tail([0, 0])) == [];
  }

  function Sign(r: int): int
  {
    if r < 0 then -1 else if r > 0 then 1 else 0
  }

  // ---------- version_compare_part ----------

  /** At a digit or the end, a key goes on with 0 and a number. */
  lemma KeyAtDigit(s: Text, y: seq<int>)
    requires s == [] || IsDigit(s[0])
    ensures Lex(KeyText(s), y) == Lex([0] + KeyNumber(s, 0), y) && Lex(y, KeyText(s)) == Lex(y, [0] + KeyNumber(s, 0))
  {
    if s == [] {
      NothingIsZero(y);
      assert [0] + KeyNumber(s, 0) == [0, 0];
    }
  }

  lemma BothNumbers(x: Text, y: Text)
    requires (x == [] || IsDigit(x[0])) && (y == [] || IsDigit(y[0]))
    ensures Lex(KeyText(x), KeyText(y)) == Lex(KeyNumber(x, 0), KeyNumber(y, 0))
  {
    KeyAtDigit(x, KeyText(y));
    KeyAtDigit(y, [0] + KeyNumber(x, 0));
    LexTail([0] + KeyNumber(x, 0), [0] + KeyNumber(y, 0));
  }

  /** The text parts differ at their first characters, digits and ends counting as 0. */
  lemma TextDiffers(x: Text, y: Text)
    requires Order(At(x, 0)) != Order(At(y, 0))
    ensures Lex(KeyText(x), KeyText(y)) == Sign(Order(At(x, 0)) - Order(At(y, 0)))
  {
    LexTail(KeyText(x), KeyText(y));
  }

  /** They agree there. */
  lemma TextAgrees(x: Text, y: Text)
    requires Order(At(x, 0)) == Order(At(y, 0))
    requires (x != [] && !IsDigit(x[0])) || (y != [] && !IsDigit(y[0]))
    ensures x != [] && y != [] && Lex(KeyText(x), KeyText(y)) == Lex(KeyText(x[1..]), KeyText(y[1..]))
  {
    OrderInjective(At(x, 0), At(y, 0));
    LexTail(KeyText(x), KeyText(y));
  }

  /** A number only grows as more digits are read. */
  lemma {:induction false} NumberGrows(s: Text, acc: nat)
    ensures KeyNumber(s, acc) != [] && KeyNumber(s, acc)[0] >= acc
    decreases |s|
  {
    if s != [] && IsDigit(s[0]) {
      NumberGrows(s[1..], 10 * acc + (s[0] - ZERO));
    }
  }

  /** The number that was longer is the larger one. */
  lemma LongerNumber(x: Text, y: Text, a: nat, b: nat, p: nat)
    requires x != [] && IsDigit(x[0]) && (y == [] || !IsDigit(y[0]))
    requires b < p <= 10 * a + (x[0] - ZERO)
    ensures Lex(KeyNumber(x, a), KeyNumber(y, b)) == 1 && Lex(KeyNumber(y, b), KeyNumber(x, a)) == -1
  {
    NumberGrows(x[1..], 10 * a + (x[0] - ZERO));
    LexTail(KeyNumber(x, a), KeyNumber(y, b));
    LexTail(KeyNumber(y, b), KeyNumber(x, a));
  }

  /** Both numbers end here. */
  lemma NumbersEnd(x: Text, y: Text, a: nat, b: nat)
    requires (x == [] || !IsDigit(x[0])) && (y == [] || !IsDigit(y[0]))
    ensures a != b ==> Lex(KeyNumber(x, a), KeyNumber(y, b)) == Sign(a - b)
    ensures a == b ==> Lex(KeyNumber(x, a), KeyNumber(y, b)) == Lex(KeyText(x), KeyText(y))
  {
    LexTail(KeyNumber(x, a), KeyNumber(y, b));
  }

  lemma SkipZero(s: Text)
    requires s != [] && s[0] == ZERO
    ensures KeyNumber(s, 0) == KeyNumber(s[1..], 0)
  {
  }

  // ---------- what the order is, character by character ----------

  predicate Letter(c: byte)
  {
    (65 <= c && c <= 90) || (97 <= c && c <= 122)
  }

  /** Neither a letter nor a digit, the tilde nor the end. */
  predicate Punctuation(c: byte)
  {
    c != 0 && !Letter(c) && !(48 <= c <= 57) && c != 126
  }

  /** The tilde comes before everything, even the end; then the end, where a digit counts as
      one; then the letters; and then all others. Within a kind codes decide. */
  predicate Sooner(c: byte, d: byte)
  {
    || (c == 126 && d != 126)
    || (c == 0 && (Letter(d) || Punctuation(d)))
    || (Letter(c) && (Punctuation(d) || (Letter(d) && c < d)))
    || (Punctuation(c) && Punctuation(d) && c < d)
  }

  /** The character at k, 0 for the end and for digits. */
  function Mark(s: Text, k: nat): byte
    requires k <= |s|
  {
    if k == |s| || 48 <= s[k] <= 57 then 0 else s[k]
  }

  /** The texts are the same up to k, which is not inside a number of either. */
  predicate Fork(v: Text, w: Text, k: nat)
  {
    && k <= |v| && k <= |w| && v[..k] == w[..k]
    && (k == 0 || !(48 <= v[k - 1] <= 57)
        || ((k == |v| || !(48 <= v[k] <= 57)) && (k == |w| || !(48 <= w[k] <= 57))))
  }

  /** From k to i there is a number; at the end that may be nothing. */
  predicate NumberAt(s: Text, k: nat, i: nat)
  {
    && k <= i <= |s| && (k < |s| ==> k < i)
    && (forall j :: k <= j < i ==> 48 <= s[j] <= 57) && (i == |s| || !(48 <= s[i] <= 57))
  }

  function Decimal(d: seq<byte>): int
  {
    if d == [] then 0 else 10 * Decimal(d[..|d| - 1]) + d[|d| - 1] as int - 48
  }

  /** r says how v compares with w: where they part, by the kinds and codes of characters, or
      by the values of numbers. */
  ghost predicate Rules(v: Text, w: Text, r: int)
  {
    && (forall k: nat :: Fork(v, w, k) ==>
          (Sooner(Mark(v, k), Mark(w, k)) ==> r < 0) && (Sooner(Mark(w, k), Mark(v, k)) ==> r > 0))
    && (forall k: nat, i: nat, j: nat :: Fork(v, w, k) && NumberAt(v, k, i) && NumberAt(w, k, j) ==>
          (Decimal(v[k..i]) < Decimal(w[k..j]) ==> r < 0) && (Decimal(v[k..i]) > Decimal(w[k..j]) ==> r > 0))
    && (v == w ==> r == 0)
  }

  /** How a key goes on where the texts part. */
  lemma {:induction false} CommonText(v: Text, w: Text, k: nat)
    requires Fork(v, w, k)
    ensures Lex(KeyText(v), KeyText(w)) == Lex(KeyText(v[k..]), KeyText(w[k..]))
    decreases k, 1
  {
    hide Lex, KeyNumber, Order;
    if k == 0 {
      assert v[0..] == v && w[0..] == w;
    } else {
      assert v[0] == v[..k][0] == w[0];
      LexTail(KeyText(v), KeyText(w));
      if IsDigit(v[0]) {
        CommonNumber(v, w, k, 0);
      } else {
        Further(v, w, k);
        CommonText(v[1..], w[1..], k - 1);
      }
    }
  }

  lemma Further(v: Text, w: Text, k: nat)
    requires 1 <= k && Fork(v, w, k)
    ensures v[1..][k - 1..] == v[k..] && w[1..][k - 1..] == w[k..]
    ensures v[1..][..k - 1] == v[..k][1..] && w[1..][..k - 1] == w[..k][1..]
    ensures !(48 <= v[0] <= 57) || k > 1 ==> Fork(v[1..], w[1..], k - 1)
  {
  }

  lemma {:induction false} CommonNumber(v: Text, w: Text, k: nat, acc: nat)
    requires 1 <= k && Fork(v, w, k) && IsDigit(v[0])
    ensures v[0] == w[0]
    ensures Lex(KeyNumber(v, acc), KeyNumber(w, acc)) == Lex(KeyText(v[k..]), KeyText(w[k..]))
    decreases k, 0
  {
    hide Lex, KeyText, Order;
    assert v[0] == v[..k][0] == w[0];
    Further(v, w, k);
    var next: nat := 10 * acc + (v[0] - ZERO);
    var x, y := v[1..], w[1..];
    if k > 1 && IsDigit(x[0]) {
      CommonNumber(x, y, k - 1, next);
    } else {
      assert k == 1 ==> x == v[k..] && y == w[k..];
      assert k > 1 ==> x[0] == x[..k - 1][0] == y[0];
      LexTail(KeyNumber(x, next), KeyNumber(y, next));
      assert KeyNumber(x, next) == [next] + KeyText(x) && KeyNumber(y, next) == [next] + KeyText(y);
      if k > 1 {
        CommonText(x, y, k - 1);
      }
    }
  }

  /** A key starts with the rank of the first character. */
  lemma FirstDecides(v: Text, w: Text)
    ensures Sooner(Mark(v, 0), Mark(w, 0)) ==> Lex(KeyText(v), KeyText(w)) < 0
    ensures Sooner(Mark(w, 0), Mark(v, 0)) ==> Lex(KeyText(v), KeyText(w)) > 0
  {
    hide KeyNumber, Lex;
    LexTail(KeyText(v), KeyText(w));
  }

  /** Behind its 0, a number starts with its value. */
  lemma {:induction false} KeyOfNumber(s: Text, i: nat)
    requires i <= |s| && forall j :: 0 <= j < i ==> 48 <= s[j] <= 57
    ensures Decimal(s[..i]) >= 0 && KeyNumber(s, 0) == KeyNumber(s[i..], Decimal(s[..i]))
  {
    if i == 0 {
      assert s[0..] == s;
    } else {
      KeyOfNumber(s, i - 1);
      assert s[..i][..i - 1] == s[..i - 1] && s[i - 1..][1..] == s[i..];
    }
  }

  /** A number at the start, or the end. */
  lemma KeyAtNumber(s: Text, i: nat, y: seq<int>)
    requires NumberAt(s, 0, i)
    ensures Decimal(s[..i]) >= 0
    ensures Lex(KeyText(s), y) == Lex([0, Decimal(s[..i])] + KeyText(s[i..]), y)
    ensures Lex(y, KeyText(s)) == Lex(y, [0, Decimal(s[..i])] + KeyText(s[i..]))
  {
    hide Lex;
    if s == [] {
      NothingIsZero(y);
      assert [0, 0] + KeyText([]) == [0, 0];
    } else {
      KeyOfNumber(s, i);
      assert [0] + ([Decimal(s[..i])] + KeyText(s[i..])) == [0, Decimal(s[..i])] + KeyText(s[i..]);
    }
  }

  lemma NumbersDecide(v: Text, w: Text, i: nat, j: nat)
    requires NumberAt(v, 0, i) && NumberAt(w, 0, j)
    ensures Decimal(v[..i]) < Decimal(w[..j]) ==> Lex(KeyText(v), KeyText(w)) < 0
    ensures Decimal(v[..i]) > Decimal(w[..j]) ==> Lex(KeyText(v), KeyText(w)) > 0
    ensures Decimal(v[..i]) == Decimal(w[..j]) ==> Lex(KeyText(v), KeyText(w)) == Lex(KeyText(v[i..]), KeyText(w[j..]))
  {
    hide Lex, KeyText, Decimal;
    KeyAtNumber(v, i, KeyText(w));
    var x := [0, Decimal(v[..i])] + KeyText(v[i..]);
    KeyAtNumber(w, j, x);
    var y := [0, Decimal(w[..j])] + KeyText(w[j..]);
    LexTail(x, y);
    assert x[1..] == [Decimal(v[..i])] + KeyText(v[i..]) && y[1..] == [Decimal(w[..j])] + KeyText(w[j..]);
    LexTail(x[1..], y[1..]);
    assert x[1..][1..] == KeyText(v[i..]) && y[1..][1..] == KeyText(w[j..]);
  }

  /** Keys are in this order. */
  lemma KeyRules(v: Text, w: Text, r: int)
    requires Sign(r) == Lex(KeyText(v), KeyText(w))
    ensures Rules(v, w, r)
  {
    hide Lex, KeyText, Decimal;
    forall k: nat | Fork(v, w, k)
      ensures Sooner(Mark(v, k), Mark(w, k)) ==> r < 0
      ensures Sooner(Mark(w, k), Mark(v, k)) ==> r > 0
    {
      CommonText(v, w, k);
      FirstDecides(v[k..], w[k..]);
    }
    forall k: nat, i: nat, j: nat | Fork(v, w, k) && NumberAt(v, k, i) && NumberAt(w, k, j)
      ensures Decimal(v[k..i]) < Decimal(w[k..j]) ==> r < 0
      ensures Decimal(v[k..i]) > Decimal(w[k..j]) ==> r > 0
    {
      CommonText(v, w, k);
      assert v[k..][..i - k] == v[k..i] && w[k..][..j - k] == w[k..j];
      NumbersDecide(v[k..], w[k..], i - k, j - k);
    }
    if v == w {
      LexSame(KeyText(v));
    }
  }

  /** The same with the parts written out. A letter comes before any other sign, the tilde even
      before the end, and the end before both. */
  lemma KindsInOrder(x: Text, a: byte, p: byte, u: Text, w: Text, r: int)
    requires Letter(a) && Punctuation(p)
    ensures Rules(x + [a] + u, x + [p] + w, r) ==> r < 0
    ensures Rules(x + [126] + u, x, r) ==> r < 0
    ensures Rules(x, x + [a] + u, r) ==> r < 0
    ensures Rules(x, x + [p] + u, r) ==> r < 0
  {
    var k := |x|;
    assert Fork(x + [a] + u, x + [p] + w, k) && Fork(x + [126] + u, x, k) && Fork(x, x + [a] + u, k) && Fork(x, x + [p] + u, k);
  }

  lemma CodesInOrder(x: Text, a: byte, b: byte, u: Text, w: Text, r: int)
    requires a < b && ((Letter(a) && Letter(b)) || (Punctuation(a) && Punctuation(b)))
    ensures Rules(x + [a] + u, x + [b] + w, r) ==> r < 0
  {
    assert Fork(x + [a] + u, x + [b] + w, |x|);
  }

  // ---------- version_compare_part ----------

  /** Compare two parts of a version; a missing one is like an empty one. The result is
      negative, zero or positive as val's key comes before, with or after ref's. No
      character behind a terminator is looked at. */
  method VersionComparePart(val0: Option<Text>, ref0: Option<Text>) returns (r: int)
    ensures Sign(r) == Lex(KeyText(TextOr(val0)), KeyText(TextOr(ref0)))
    ensures Rules(TextOr(val0), TextOr(ref0), r)
  {
    hide KeyText, KeyNumber, Lex, Rules;
    r := CompareKeys(TextOr(val0), TextOr(ref0));
    KeyRules(TextOr(val0), TextOr(ref0), r);
  }

  method CompareKeys(val: Text, ref: Text) returns (r: int)
    ensures Sign(r) == Lex(KeyText(val), KeyText(ref))
  {
    hide KeyText, KeyNumber, Lex;
    var v, f: nat := 0, 0;
    assert val[0..] == val && ref[0..] == ref;
    while At(val, v) != 0 || At(ref, f) != 0
      invariant v <= |val| && f <= |ref|
      invariant Lex(KeyText(val[v..]), KeyText(ref[f..])) == Lex(KeyText(val), KeyText(ref))
      decreases |val| - v + (|ref| - f)
    {
      var done;
      r, done, v, f := CompareText(val, ref, v, f);
      if done {
        return;
      }
      r, done, v, f := CompareNumbers(val, ref, v, f);
      if done {
        return;
      }
    }
    EmptyKeys();
    assert val[v..] == [] && ref[f..] == [];
    return 0;
  }

  function TextOr(t: Option<Text>): Text
  {
    if t.None? then [] else t.value
  }

  lemma EmptyKeys()
    ensures Lex(KeyText([]), KeyText([])) == 0
  {
  }

  /** The part up to the next digits. */
  method CompareText(val: Text, ref: Text, v0: nat, f0: nat) returns (r: int, done: bool, v: nat, f: nat)
    requires v0 <= |val| && f0 <= |ref|
    ensures done ==> Sign(r) == Lex(KeyText(val[v0..]), KeyText(ref[f0..]))
    ensures v0 <= v <= |val| && f0 <= f <= |ref|
    ensures !done ==> Lex(KeyText(val[v..]), KeyText(ref[f..])) == Lex(KeyText(val[v0..]), KeyText(ref[f0..]))
    ensures !done ==> (v == |val| || IsDigit(val[v])) && (f == |ref| || IsDigit(ref[f]))
  {
    hide KeyText, KeyNumber, Lex, Order;
    r, done, v, f := 0, false, v0, f0;
    while (At(val, v) != 0 && !IsDigit(At(val, v))) || (At(ref, f) != 0 && !IsDigit(At(ref, f)))
      invariant v0 <= v <= |val| && f0 <= f <= |ref|
      invariant Lex(KeyText(val[v..]), KeyText(ref[f..])) == Lex(KeyText(val[v0..]), KeyText(ref[f0..]))
      decreases |val| - v
    {
      var vc := Order(At(val, v));
      var rc := Order(At(ref, f));
      if vc != rc {
        TextDiffers(val[v..], ref[f..]);
        return vc - rc, true, v, f;
      }
      TextAgrees(val[v..], ref[f..]);
      assert val[v..][1..] == val[v + 1..] && ref[f..][1..] == ref[f + 1..];
      v := v + 1;
      f := f + 1;
    }
  }

  /** Zeros in front of a number do not count. */
  method SkipZeros(s: Text, p0: nat) returns (p: nat)
    requires p0 <= |s| && (p0 == |s| || IsDigit(s[p0]))
    ensures p0 <= p <= |s| && At(s, p) != ZERO
    ensures KeyNumber(s[p..], 0) == KeyNumber(s[p0..], 0)
  {
    hide KeyNumber;
    p := p0;
    while At(s, p) == ZERO
      invariant p0 <= p <= |s| && KeyNumber(s[p..], 0) == KeyNumber(s[p0..], 0)
      decreases |s| - p
    {
      SkipZero(s[p..]);
      assert s[p..][1..] == s[p + 1..];
      p := p + 1;
    }
  }

  /** Value and place of the digits read so far: both numbers have as many. */
  ghost predicate Reading(s: Text, z: nat, p: nat, acc: nat, power: nat)
    requires z <= p <= |s|
  {
    && KeyNumber(s[p..], acc) == KeyNumber(s[z..], 0)
    && acc < power && (p == z ==> acc == 0 && power == 1 && At(s, p) != ZERO) && (p > z ==> 10 * acc >= power)
  }

  lemma ReadDigit(s: Text, z: nat, p: nat, acc: nat, power: nat)
    requires z <= p < |s| && IsDigit(s[p]) && Reading(s, z, p, acc, power)
    ensures Reading(s, z, p + 1, 10 * acc + (s[p] - ZERO), 10 * power)
  {
    assert s[p..][1..] == s[p + 1..];
  }

  lemma FirstDiffDecides(a: nat, b: nat, d: byte, e: byte, diff: int)
    requires IsDigit(d) && IsDigit(e) && Sign(diff) == Sign(a - b)
    ensures Sign(if diff == 0 then d - e else diff) == Sign(10 * a + (d - ZERO) - (10 * b + (e - ZERO)))
  {
  }

  /** The digits. */
  method CompareNumbers(val: Text, ref: Text, v0: nat, f0: nat) returns (r: int, done: bool, v: nat, f: nat)
    requires v0 <= |val| && f0 <= |ref|
    requires (v0 == |val| || IsDigit(val[v0])) && (f0 == |ref| || IsDigit(ref[f0]))
    ensures done ==> Sign(r) == Lex(KeyText(val[v0..]), KeyText(ref[f0..]))
    ensures v0 <= v <= |val| && f0 <= f <= |ref|
    ensures !done ==> Lex(KeyText(val[v..]), KeyText(ref[f..])) == Lex(KeyText(val[v0..]), KeyText(ref[f0..]))
    ensures !done && (v0 < |val| || f0 < |ref|) ==> v > v0 || f > f0
  {
    hide KeyText, KeyNumber, Lex;
    BothNumbers(val[v0..], ref[f0..]);
    v := SkipZeros(val, v0);
    f := SkipZeros(ref, f0);
    ghost var vz, fz := v, f;
    ghost var a: nat, b: nat, power: nat := 0, 0, 1;
    var firstDiff: int := 0;
    while IsDigit(At(val, v)) && IsDigit(At(ref, f))
      invariant vz <= v <= |val| && fz <= f <= |ref| && v - vz == f - fz
      invariant Reading(val, vz, v, a, power) && Reading(ref, fz, f, b, power)
      invariant Sign(firstDiff) == Sign(a - b)
      decreases |val| - v
    {
      ReadDigit(val, vz, v, a, power);
      ReadDigit(ref, fz, f, b, power);
      FirstDiffDecides(a, b, val[v], ref[f], firstDiff);
      if firstDiff == 0 {
        firstDiff := val[v] as int - ref[f] as int;
      }
      a, b, power := 10 * a + (val[v] - ZERO), 10 * b + (ref[f] - ZERO), 10 * power;
      v := v + 1;
      f := f + 1;
    }
    done := true;
    if IsDigit(At(val, v)) {
      LongerNumber(val[v..], ref[f..], a, b, power);
      return 1, true, v, f;
    }
    if IsDigit(At(ref, f)) {
      LongerNumber(ref[f..], val[v..], b, a, power);
      return -1, true, v, f;
    }
    NumbersEnd(val[v..], ref[f..], a, b);
    if firstDiff != 0 {
      return firstDiff, true, v, f;
    }
    return 0, false, v, f;
  }

  // ---------- version_compare ----------

  /** Where c first and last occurs, |s| if nowhere. */
  function IndexOf(s: Text, c: byte): (i: nat)
    ensures i <= |s| && (i < |s| ==> s[i] == c) && forall k :: 0 <= k < i ==> s[k] != c
  {
    if s == [] || s[0] == c then 0 else 1 + IndexOf(s[1..], c)
  }

  function LastIndexOf(s: Text, c: byte): (i: nat)
    ensures i <= |s| && (i < |s| ==> s[i] == c)
    ensures forall k :: 0 <= k < |s| && (i == |s| || k > i) ==> s[k] != c
  {
    if s == [] then 0
    else
      var n := |s| - 1;
      if s[n] == c then n
      else
        var i := LastIndexOf(s[..n], c);
        if i == n then |s| else i
  }

  /** atoi, converted to unsigned: spaces, a sign, digits. */
  function Digits(s: Text, acc: nat): nat
  {
    if s != [] && IsDigit(s[0]) then Digits(s[1..], 10 * acc + (s[0] - ZERO)) else acc
  }

  function SkipSpace(s: Text): Text
  {
    if s != [] && (s[0] == 32 || 9 <= s[0] <= 13) then SkipSpace(s[1..]) else s
  }

  function Atoi(s: Text): (r: nat)
    ensures r < UINT_RANGE
  {
    var t := SkipSpace(s);
    if t != [] && t[0] == DASH then
      var n: int := Digits(t[1..], 0);
      (-n) % UINT_RANGE
    else if t != [] && t[0] == 43 then Digits(t[1..], 0) % UINT_RANGE
    else Digits(t, 0) % UINT_RANGE
  }

  /** Epoch, upstream version and revision, of which the first and the last may be
      missing. */
  datatype Version = Version(epoch: nat, upstream: Text, revision: Option<Text>)

  /** The epoch ends at the first colon, the revision starts behind the last dash. */
  function Parse(s: Text): Version
  {
    var c := IndexOf(s, COLON);
    var rest := if c < |s| then s[c + 1..] else s;
    var d := LastIndexOf(rest, DASH);
    Version(if c < |s| then Atoi(s) else 0, rest[..d], if d < |rest| then Some(rest[d + 1..]) else None)
  }

  // ---------- how a version is taken apart ----------

  predicate Free(s: Text, c: byte)
  {
    forall i :: 0 <= i < |s| ==> s[i] != c
  }

  lemma {:induction false} FirstIndex(a: Text, c: byte, b: Text)
    requires c != 0 && Free(a, c)
    ensures IndexOf(a, c) == |a| && IndexOf(a + [c] + b, c) == |a|
  {
    var i, j := IndexOf(a, c), IndexOf(a + [c] + b, c);
    assert (a + [c] + b)[|a|] == c;
  }

  lemma LastIndex(a: Text, c: byte, b: Text)
    requires c != 0 && Free(b, c)
    ensures LastIndexOf(a + [c] + b, c) == |a|
  {
    hide LastIndexOf;
    LastOne(a + [c] + b, c, |a|);
  }

  lemma LastOne(s: Text, c: byte, k: nat)
    requires k < |s| && s[k] == c && forall i :: k < i < |s| ==> s[i] != c
    ensures LastIndexOf(s, c) == k
  {
    hide LastIndexOf;
    var i := LastIndexOf(s, c);
  }

  lemma NoIndex(a: Text, c: byte)
    requires Free(a, c)
    ensures IndexOf(a, c) == |a| && LastIndexOf(a, c) == |a|
  {
  }

  lemma {:induction false} DigitsStop(e: Text, x: Text, acc: nat)
    requires x != [] && !IsDigit(x[0])
    ensures Digits(e + x, acc) == Digits(e, acc)
  {
    if e == [] {
      assert e + x == x;
    } else {
      assert (e + x)[1..] == e[1..] + x;
      if IsDigit(e[0]) {
        DigitsStop(e[1..], x, 10 * acc + (e[0] - ZERO));
      }
    }
  }

  lemma {:induction false} SkipSpaceStops(e: Text, x: Text)
    requires x != [] && x[0] == COLON
    ensures SkipSpace(e + x) == SkipSpace(e) + x
  {
    if e == [] {
      assert e + x == x;
    } else {
      assert (e + x)[1..] == e[1..] + x;
      SkipSpaceStops(e[1..], x);
    }
  }

  /** What stands from a colon on does not count for the number in front of it. */
  lemma AtoiStops(e: Text, x: Text)
    requires x != [] && x[0] == COLON
    ensures Atoi(e + x) == Atoi(e)
  {
    SkipSpaceStops(e, x);
    var t := SkipSpace(e);
    if t == [] {
      assert t + x == x;
    } else {
      assert (t + x)[1..] == t[1..] + x;
      DigitsStop(t[1..], x, 0);
    }
    DigitsStop(t, x, 0);
  }

  /** A version written out: an epoch with a colon, if there is one, the upstream version,
      and a dash with a revision, if there is one. */
  function Written(epoch: Option<Text>, upstream: Text, revision: Option<Text>): Text
  {
    (if epoch.Some? then epoch.value + [58] else [])
    + (upstream + if revision.Some? then [45] + revision.value else [])
  }

  /** It is taken apart just so, if the colon is the first and the dash the last one. */
  lemma ParseWritten(epoch: Option<Text>, upstream: Text, revision: Option<Text>)
    requires if epoch.Some? then Free(epoch.value, 58) else Free(upstream, 58) && Free(TextOr(revision), 58)
    requires if revision.Some? then Free(revision.value, 45) else Free(upstream, 45)
    ensures Parse(Written(epoch, upstream, revision))
         == Version(if epoch.Some? then Atoi(epoch.value) else 0, upstream, revision)
  {
    hide Atoi, IndexOf, LastIndexOf, Parse, Free;
    var rest: Text := upstream + if revision.Some? then [DASH] + revision.value else [];
    RestSplit(rest, upstream, revision);
    if epoch.Some? {
      assert Written(epoch, upstream, revision) == epoch.value + ([COLON] + rest);
      EpochSplit(epoch.value, rest);
    } else {
      assert Written(epoch, upstream, revision) == rest;
      RestFree(rest, upstream, revision);
      NoIndex(rest, COLON);
    }
    ghost var s := Written(epoch, upstream, revision);
    ParseIs(s, rest, IndexOf(s, COLON), LastIndexOf(rest, DASH));
  }

  lemma RestFree(rest: Text, upstream: Text, revision: Option<Text>)
    requires rest == upstream + if revision.Some? then [DASH] + revision.value else []
    requires Free(upstream, COLON) && Free(TextOr(revision), COLON)
    ensures Free(rest, COLON)
  {
  }

  lemma ParseIs(s: Text, rest: Text, c: nat, d: nat)
    requires c == IndexOf(s, COLON) && rest == if c < |s| then s[c + 1..] else s
    requires d == LastIndexOf(rest, DASH)
    ensures Parse(s) == Version(if c < |s| then Atoi(s) else 0, rest[..d], if d < |rest| then Some(rest[d + 1..]) else None)
  {
    hide Atoi, IndexOf, LastIndexOf;
  }

  lemma EpochSplit(e: Text, rest: Text)
    requires Free(e, COLON)
    ensures var s := e + ([COLON] + rest);
      IndexOf(s, COLON) == |e| < |s| && s[|e| + 1..] == rest && Atoi(s) == Atoi(e)
  {
    hide Atoi, IndexOf;
    FirstIndex(e, COLON, rest);
    assert e + [COLON] + rest == e + ([COLON] + rest);
    AtoiStops(e, [COLON] + rest);
  }

  lemma RestSplit(rest: Text, upstream: Text, revision: Option<Text>)
    requires rest == upstream + if revision.Some? then [DASH] + revision.value else []
    requires if revision.Some? then Free(revision.value, DASH) else Free(upstream, DASH)
    ensures var d := LastIndexOf(rest, DASH);
      rest[..d] == upstream && (if d < |rest| then Some(rest[d + 1..]) else None) == revision
  {
    if revision.Some? {
      assert rest == upstream + [DASH] + revision.value;
      LastIndex(upstream, DASH, revision.value);
    } else {
      NoIndex(rest, DASH);
    }
  }

  /** Compare by epoch first, then by upstream version, then by revision. */
  function Compare(a: Version, b: Version): int
  {
    if a.epoch != b.epoch then (if a.epoch < b.epoch then -1 else 1)
    else
      var r := Lex(KeyText(a.upstream), KeyText(b.upstream));
      if r != 0 then r else Lex(KeyText(TextOr(a.revision)), KeyText(TextOr(b.revision)))
  }

  /** r says how version a compares with b: the epochs decide; of equal epochs, the upstream
      versions; and then the revisions. */
  ghost predicate VersionRules(a: Version, b: Version, r: int)
  {
    && (a.epoch < b.epoch ==> r < 0) && (a.epoch > b.epoch ==> r > 0)
    && (a.epoch == b.epoch ==>
          exists u, v :: Rules(a.upstream, b.upstream, u) && Rules(TextOr(a.revision), TextOr(b.revision), v)
                         && r == if u != 0 then u else v)
  }

  /** Negative, zero or positive as ver1 is before, with or after ver2. */
  method VersionCompare(ver1: Text, ver2: Text) returns (r: int)
    ensures Sign(r) == Compare(Parse(ver1), Parse(ver2))
    ensures VersionRules(Parse(ver1), Parse(ver2), r)
  {
    hide KeyText, KeyNumber, Lex, Parse, Rules;
    var v1, v2 := Parse(ver1), Parse(ver2);
    if v1.epoch < v2.epoch {
      return -1;
    }
    if v1.epoch > v2.epoch {
      return 1;
    }
    r := VersionComparePart(Some(v1.upstream), Some(v2.upstream));
    ghost var u := r;
    ghost var v := Lex(KeyText(TextOr(v1.revision)), KeyText(TextOr(v2.revision)));
    KeyRules(TextOr(v1.revision), TextOr(v2.revision), v);
    if r == 0 {
      r := VersionComparePart(v1.revision, v2.revision);
      v := r;
    }
    assert Rules(v1.upstream, v2.upstream, u) && Rules(TextOr(v1.revision), TextOr(v2.revision), v);
  }

  /** A number that fits is read as it is written. */
  lemma AtoiValue(d: Text)
    requires (forall i :: 0 <= i < |d| ==> 48 <= d[i] <= 57) && Decimal(d) < UINT_RANGE
    ensures Atoi(d) == Decimal(d)
  {
    hide Decimal;
    DigitsValue(d, |d|);
    assert d[..|d|] == d;
    assert Digits([], Digits(d[..|d|], 0)) == Digits(d, 0);
  }

  lemma {:induction false} DigitsValue(d: Text, i: nat)
    requires i <= |d| && forall j :: 0 <= j < |d| ==> 48 <= d[j] <= 57
    ensures Decimal(d[..i]) >= 0 && Digits(d, 0) == Digits(d[i..], Decimal(d[..i]))
  {
    if i == 0 {
      assert d[0..] == d;
    } else {
      DigitsValue(d, i - 1);
      assert d[..i][..i - 1] == d[..i - 1] && d[i - 1..][1..] == d[i..];
    }
  }

  // ---------- a total preorder ----------

  lemma CompareSelf(a: Version)
    ensures Compare(a, a) == 0
  {
    LexSame(KeyText(a.upstream));
    LexSame(KeyText(TextOr(a.revision)));
  }

  lemma CompareSwap(a: Version, b: Version)
    ensures Compare(b, a) == -Compare(a, b)
  {
    hide Lex, KeyText;
    LexSwap(KeyText(a.upstream), KeyText(b.upstream));
    LexSwap(KeyText(TextOr(a.revision)), KeyText(TextOr(b.revision)));
  }

  lemma CompareTransitive(a: Version, b: Version, c: Version)
    requires Compare(a, b) <= 0 && Compare(b, c) <= 0
    ensures Compare(a, c) <= 0
    ensures Compare(a, b) < 0 || Compare(b, c) < 0 ==> Compare(a, c) < 0
  {
    hide Lex, KeyText;
    if a.epoch == b.epoch == c.epoch {
      var x, y, z := KeyText(a.upstream), KeyText(b.upstream), KeyText(c.upstream);
      LexTransitive(x, y, z);
      if Lex(x, y) == 0 == Lex(y, z) {
        LexSwap(x, y);
        LexSwap(y, z);
        LexTransitive(z, y, x);
        LexSwap(x, z);
        LexTransitive(KeyText(TextOr(a.revision)), KeyText(TextOr(b.revision)), KeyText(TextOr(c.revision)));
      }
    }
  }

  // ---------- test_version ----------

  datatype Operator = VER_NULL | VER_EQUAL | VER_LESS | VER_LESS_EQUAL | VER_MORE | VER_MORE_EQUAL | VER_ANY

  /** Whether version1 meets a condition on version2. */
  predicate Meets(version1: Text, version2: Text, op: Operator)
  {
    var r := Compare(Parse(version1), Parse(version2));
    match op
    case VER_ANY => true
    case VER_EQUAL => r == 0
    case VER_LESS => r < 0
    case VER_LESS_EQUAL => r <= 0
    case VER_MORE => r > 0
    case VER_MORE_EQUAL => r >= 0
    case VER_NULL => false
  }

  /** The relations between versions that operators stand for. */
  predicate Relation(op: Operator, c: int, r: bool)
  {
    && (op == VER_EQUAL ==> r == (c == 0)) && (op == VER_ANY ==> r) && (op == VER_NULL ==> !r)
    && (op == VER_LESS ==> r == (c < 0)) && (op == VER_LESS_EQUAL ==> r == !(c > 0))
    && (op == VER_MORE ==> r == (c > 0)) && (op == VER_MORE_EQUAL ==> r == !(c < 0))
  }

  /** What meets a condition does so by the order of versions. */
  lemma MeetsIs(version1: Text, version2: Text, op: Operator) returns (c: int)
    ensures VersionRules(Parse(version1), Parse(version2), c) && Relation(op, c, Meets(version1, version2, op))
  {
    hide Parse, Rules, Lex, KeyText;
    var a, b := Parse(version1), Parse(version2);
    c := Compare(a, b);
    KeyRules(a.upstream, b.upstream, Lex(KeyText(a.upstream), KeyText(b.upstream)));
    KeyRules(TextOr(a.revision), TextOr(b.revision), Lex(KeyText(TextOr(a.revision)), KeyText(TextOr(b.revision))));
  }

  method TestVersion(version1: Text, version2: Text, op: Operator) returns (r: bool)
    ensures r == Meets(version1, version2, op)
    ensures exists c :: VersionRules(Parse(version1), Parse(version2), c) && Relation(op, c, r)
  {
    hide Compare, Parse, VersionRules;
    var result := VersionCompare(version1, version2);
    match op
    case VER_ANY => return true;
    case VER_EQUAL => return result == 0;
    case VER_LESS => return result < 0;
    case VER_LESS_EQUAL => return result <= 0;
    case VER_MORE => return result > 0;
    case VER_MORE_EQUAL => return result >= 0;
    case VER_NULL => return false;
  }

  /** The operators agree with each other: one of before, with and after holds, the
      others follow from these, and they turn around with their arguments. */
  lemma OperatorsAgree(a: Text, b: Text)
    ensures Meets(a, b, VER_LESS) || Meets(a, b, VER_EQUAL) || Meets(a, b, VER_MORE)
    ensures !(Meets(a, b, VER_LESS) && Meets(a, b, VER_EQUAL)) && !(Meets(a, b, VER_MORE) && Meets(a, b, VER_EQUAL))
    ensures !(Meets(a, b, VER_LESS) && Meets(a, b, VER_MORE))
    ensures Meets(a, b, VER_LESS_EQUAL) <==> Meets(a, b, VER_LESS) || Meets(a, b, VER_EQUAL)
    ensures Meets(a, b, VER_MORE_EQUAL) <==> Meets(a, b, VER_MORE) || Meets(a, b, VER_EQUAL)
    ensures Meets(a, b, VER_LESS) <==> Meets(b, a, VER_MORE)
    ensures Meets(a, b, VER_EQUAL) <==> Meets(b, a, VER_EQUAL)
    ensures Meets(a, a, VER_EQUAL)
  {
    hide Compare, Parse;
    CompareSwap(Parse(a), Parse(b));
    CompareSelf(Parse(a));
  }

  /** And they are transitive. */
  lemma OperatorsChain(a: Text, b: Text, c: Text)
    ensures Meets(a, b, VER_LESS_EQUAL) && Meets(b, c, VER_LESS_EQUAL) ==> Meets(a, c, VER_LESS_EQUAL)
    ensures Meets(a, b, VER_LESS) && Meets(b, c, VER_LESS_EQUAL) ==> Meets(a, c, VER_LESS)
    ensures Meets(a, b, VER_LESS_EQUAL) && Meets(b, c, VER_LESS) ==> Meets(a, c, VER_LESS)
    ensures Meets(a, b, VER_EQUAL) && Meets(b, c, VER_EQUAL) ==> Meets(a, c, VER_EQUAL)
  {
    hide Compare, Parse;
    var x, y, z := Parse(a), Parse(b), Parse(c);
    if Compare(x, y) <= 0 && Compare(y, z) <= 0 {
      CompareTransitive(x, y, z);
    }
    CompareSwap(x, y);
    CompareSwap(y, z);
    CompareSwap(x, z);
    if Compare(z, y) <= 0 && Compare(y, x) <= 0 {
      CompareTransitive(z, y, x);
    }
  }
}
