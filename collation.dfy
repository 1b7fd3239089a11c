/** Numeric-aware comparison of asset paths.

    The application orders paths with `a.localeCompare(b, undefined, { numeric: true })`.
    This module models that comparator by what page ordering relies on: a maximal run of
    decimal digits is compared by its numeric value, every other character by its code
    point, and a number sorts before any other character. Locale collation details
    (case levels, punctuation weights, tie-breaking) are not modelled. */
module Collation {

  /** A path read as tokens: each maximal run of digits is one Number, every other
      character a Symbol of its own. */
  datatype Token = Number(value: nat) | Symbol(c: char)

  predicate IsDigit(c: char) {
    '0' <= c <= '9'
  }

  predicate AllDigits(s: string) {
    forall i :: 0 <= i < |s| ==> IsDigit(s[i])
  }

  /** The length of the run of digits that starts `s`. */
  function DigitRun(s: string): (n: nat)
    ensures n <= |s|
    ensures n < |s| ==> !IsDigit(s[n])
    ensures 0 < |s| && IsDigit(s[0]) ==> 0 < n
  {
    if s == [] || !IsDigit(s[0]) then 0 else 1 + DigitRun(s[1..])
  }

  /** Every character of the run `DigitRun` measures is a digit. */
  lemma {:induction false} DigitRunIsDigits(s: string)
    ensures forall i :: 0 <= i < DigitRun(s) ==> IsDigit(s[i])
  {
    if s != [] && IsDigit(s[0]) {
      DigitRunIsDigits(s[1..]);
      assert forall i :: 0 < i < DigitRun(s) ==> s[i] == s[1..][i - 1];
    }
  }

  function DigitValue(c: char): nat {
    if IsDigit(c) then c as int - '0' as int else 0
  }

  /** The value of a string of decimal digits, most significant digit first. It is only
      applied to runs of digits. */
  function DecimalValue(ds: string): nat {
    if ds == [] then 0
    else DecimalValue(ds[..|ds| - 1]) * 10 + DigitValue(ds[|ds| - 1])
  }

  function Tokens(s: string): seq<Token>
    decreases |s|
  {
    if s == [] then []
    else if IsDigit(s[0]) then
      var n := DigitRun(s);
      [Number(DecimalValue(s[..n]))] + Tokens(s[n..])
    else [Symbol(s[0])] + Tokens(s[1..])
  }

  /** Three-way comparison of two tokens: numbers by value, symbols by code point,
      numbers before symbols. */
  function CompareTokens(a: Token, b: Token): (r: int)
    ensures -1 <= r <= 1
    ensures r == 0 <==> a == b
  {
    match (a, b)
    case (Number(m), Number(n)) => if m < n then -1 else if m == n then 0 else 1
    case (Number(_), Symbol(_)) => -1
    case (Symbol(_), Number(_)) => 1
    case (Symbol(c), Symbol(d)) => if c < d then -1 else if c == d then 0 else 1
  }

  /** Lexicographic three-way comparison of token sequences; a proper prefix comes first. */
  function CompareTokenSeqs(a: seq<Token>, b: seq<Token>): (r: int)
    ensures -1 <= r <= 1
    ensures a == [] ==> r <= 0
  {
    if a == [] then (if b == [] then 0 else -1)
    else if b == [] then 1
    else
      var c := CompareTokens(a[0], b[0]);
      if c != 0 then c else CompareTokenSeqs(a[1..], b[1..])
  }

  /** Model of `x.localeCompare(y, undefined, { numeric: true })`: negative, zero or positive. */
  function NumericCompare(x: string, y: string): (r: int)
    ensures -1 <= r <= 1
  {
    CompareTokenSeqs(Tokens(x), Tokens(y))
  }

  /** `x` may come before `y` in a `sort` driven by the comparator. */
  predicate PathLe(x: string, y: string) {
    NumericCompare(x, y) <= 0
  }

  lemma {:induction false} CompareTokenSeqsZero(a: seq<Token>, b: seq<Token>)
    ensures CompareTokenSeqs(a, b) == 0 <==> a == b
  {
    if a != [] && b != [] && a[0] == b[0] {
      CompareTokenSeqsZero(a[1..], b[1..]);
      assert a == [a[0]] + a[1..] && b == [b[0]] + b[1..];
    }
  }

  lemma {:induction false} CompareTokenSeqsFlip(a: seq<Token>, b: seq<Token>)
    ensures CompareTokenSeqs(b, a) == -CompareTokenSeqs(a, b)
  {
    if a != [] && b != [] && CompareTokens(a[0], b[0]) == 0 {
      CompareTokenSeqsFlip(a[1..], b[1..]);
    }
  }

  lemma {:induction false} CompareTokenSeqsTransitive(a: seq<Token>, b: seq<Token>, c: seq<Token>)
    requires CompareTokenSeqs(a, b) <= 0 && CompareTokenSeqs(b, c) <= 0
    ensures CompareTokenSeqs(a, c) <= 0
  {
    if a != [] {
      assert b != [] && c != [];
      var x, y := CompareTokens(a[0], b[0]), CompareTokens(b[0], c[0]);
      if x == 0 && y == 0 {
        CompareTokenSeqsTransitive(a[1..], b[1..], c[1..]);
      }
    }
  }

  /** Swapping the operands negates the comparison. */
  lemma NumericCompareFlip(x: string, y: string)
    ensures NumericCompare(y, x) == -NumericCompare(x, y)
  {
    CompareTokenSeqsFlip(Tokens(x), Tokens(y));
  }

  /** Every two paths are ordered one way or the other. */
  lemma PathLeTotal(x: string, y: string)
    ensures PathLe(x, y) || PathLe(y, x)
  {
    NumericCompareFlip(x, y);
  }

  lemma PathLeTransitive(x: string, y: string, z: string)
    requires PathLe(x, y) && PathLe(y, z)
    ensures PathLe(x, z)
  {
    CompareTokenSeqsTransitive(Tokens(x), Tokens(y), Tokens(z));
  }

  /** Paths that compare equal read as the same tokens (`p01` and `p1` do). */
  lemma NumericCompareZero(x: string, y: string)
    ensures NumericCompare(x, y) == 0 <==> Tokens(x) == Tokens(y)
  {
    CompareTokenSeqsZero(Tokens(x), Tokens(y));
  }

  lemma {:induction false} DigitRunOfDigits(d: string, s: string)
    requires AllDigits(d)
    requires s == [] || !IsDigit(s[0])
    ensures DigitRun(d + s) == |d|
  {
    if d != [] {
      assert (d + s)[1..] == d[1..] + s;
      DigitRunOfDigits(d[1..], s);
    }
  }

  lemma {:induction false} DigitRunAppend(p: string, x: string)
    requires DigitRun(p) < |p|
    ensures DigitRun(p + x) == DigitRun(p)
  {
    if IsDigit(p[0]) {
      assert (p + x)[1..] == p[1..] + x;
      DigitRunAppend(p[1..], x);
    }
  }

  /** A number followed by a non-digit reads as one Number token. */
  lemma TokensOfNumber(d: string, s: string)
    requires 0 < |d| && AllDigits(d)
    requires s == [] || !IsDigit(s[0])
    ensures Tokens(d + s) == [Number(DecimalValue(d))] + Tokens(s)
  {
    DigitRunOfDigits(d, s);
    assert (d + s)[..|d|] == d;
    assert (d + s)[|d|..] == s;
  }

  /** A prefix that does not end in a digit is read independently of what follows it. */
  lemma {:induction false} TokensAppend(p: string, x: string)
    requires p == [] || !IsDigit(p[|p| - 1])
    ensures Tokens(p + x) == Tokens(p) + Tokens(x)
    decreases |p|, 1
  {
    if p == [] {
      assert p + x == x;
    } else if IsDigit(p[0]) {
      TokensAppendAfterNumber(p, x);
    } else {
      assert (p + x)[1..] == p[1..] + x;
      TokensAppend(p[1..], x);
    }
  }

  /** The step of `TokensAppend` for a prefix that starts with a number. */
  lemma {:induction false} TokensAppendAfterNumber(p: string, x: string)
    requires p != [] && IsDigit(p[0]) && !IsDigit(p[|p| - 1])
    ensures Tokens(p + x) == Tokens(p) + Tokens(x)
    decreases |p|, 0
  {
    var n := DigitRun(p);
    var number := Number(DecimalValue(p[..n]));
    var rest := p[n..];
    assert n < |p| by {
      DigitRunIsDigits(p);
    }
    assert Tokens(p + x) == [number] + Tokens(rest + x) by {
      DigitRunAppend(p, x);
      assert (p + x)[..n] == p[..n];
      assert (p + x)[n..] == rest + x;
    }
    assert Tokens(p) == [number] + Tokens(rest);
    assert rest[|rest| - 1] == p[|p| - 1];
    TokensAppend(rest, x);
  }

  lemma {:induction false} CompareCommonPrefix(t: seq<Token>, a: seq<Token>, b: seq<Token>)
    ensures CompareTokenSeqs(t + a, t + b) == CompareTokenSeqs(a, b)
  {
    if t != [] {
      assert (t + a)[0] == t[0] == (t + b)[0];
      assert (t + a)[1..] == t[1..] + a;
      assert (t + b)[1..] == t[1..] + b;
      CompareCommonPrefix(t[1..], a, b);
      assert CompareTokens(t[0], t[0]) == 0;
      assert CompareTokenSeqs(t + a, t + b) == CompareTokenSeqs((t + a)[1..], (t + b)[1..]);
    } else {
      assert t + a == a && t + b == b;
    }
  }

  /** Sequences that agree after a leading number compare as the numbers do. */
  lemma CompareLeadingNumber(v1: nat, v2: nat, t: seq<Token>)
    ensures CompareTokenSeqs([Number(v1)] + t, [Number(v2)] + t) < 0 <==> v1 < v2
    ensures CompareTokenSeqs([Number(v1)] + t, [Number(v2)] + t) == 0 <==> v1 == v2
  {
    var a, b := [Number(v1)] + t, [Number(v2)] + t;
    assert a[0] == Number(v1) && b[0] == Number(v2);
    assert a[1..] == t && b[1..] == t;
    CompareTokenSeqsZero(t, t);
  }

  /** `p + d + s` reads as the tokens of `p`, the number `d`, and the tokens of `s`. */
  lemma TokensAroundNumber(p: string, d: string, s: string)
    requires p == [] || !IsDigit(p[|p| - 1])
    requires 0 < |d| && AllDigits(d)
    requires s == [] || !IsDigit(s[0])
    ensures Tokens(p + d + s) == Tokens(p) + ([Number(DecimalValue(d))] + Tokens(s))
  {
    var ds := d + s;
    assert Tokens(ds) == [Number(DecimalValue(d))] + Tokens(s) by {
      TokensOfNumber(d, s);
    }
    assert Tokens(p + ds) == Tokens(p) + Tokens(ds) by {
      TokensAppend(p, ds);
    }
    assert p + d + s == p + ds;
  }

  /** The point of the numeric option: two paths that differ only in one number are
      ordered by the numbers' values, so `page-9` comes before `page-10`. */
  lemma NumberRunsCompareByValue(p: string, d1: string, d2: string, s: string)
    requires p == [] || !IsDigit(p[|p| - 1])
    requires 0 < |d1| && AllDigits(d1) && 0 < |d2| && AllDigits(d2)
    requires s == [] || !IsDigit(s[0])
    ensures NumericCompare(p + d1 + s, p + d2 + s) < 0 <==> DecimalValue(d1) < DecimalValue(d2)
    ensures NumericCompare(p + d1 + s, p + d2 + s) == 0 <==> DecimalValue(d1) == DecimalValue(d2)
  {
    var t := Tokens(s);
    var a, b := [Number(DecimalValue(d1))] + t, [Number(DecimalValue(d2))] + t;
    TokensAroundNumber(p, d1, s);
    TokensAroundNumber(p, d2, s);
    CompareCommonPrefix(Tokens(p), a, b);
    CompareLeadingNumber(DecimalValue(d1), DecimalValue(d2), t);
  }

  lemma PageNineBeforePageTen()
    ensures NumericCompare("page-9", "page-10") < 0
  {
    assert DecimalValue("9") == 9;
    assert "10"[..1] == "1";
    assert DecimalValue("10") == 10;
    assert "page-" + "9" + "" == "page-9";
    assert "page-" + "10" + "" == "page-10";
    NumberRunsCompareByValue("page-", "9", "10", "");
  }
}
