/**
 * The handful of QString operations the program relies on, stated on seq<char>:
 * indexOf, split, toLower, left, toInt, toFloat, QString::number and the
 * lexicographic ordering that QMap and the comparison operators use.
 */
module Text {

  // ---------------------------------------------------------------------------
  // indexOf

  /** pat occurs in s starting at position p. */
  predicate OccursAt(s: string, pat: string, p: int)
  {
    0 <= p && p + |pat| <= |s| && s[p..p + |pat|] == pat
  }

  /** QString::indexOf(pat, from) for from >= 0: the least position >= from where pat occurs, or -1. */
  function IndexOf(s: string, pat: string, from: nat): (r: int)
    ensures r == -1 || (from <= r && r + |pat| <= |s|)
    decreases |s| - from
  {
    if from + |pat| > |s| then -1
    else if s[from..from + |pat|] == pat then from
    else IndexOf(s, pat, from + 1)
  }

  /** indexOf finds the first occurrence: the result is one, and none is skipped before it. */
  lemma {:induction false} IndexOfIsFirst(s: string, pat: string, from: nat)
    ensures IndexOf(s, pat, from) != -1 ==> OccursAt(s, pat, IndexOf(s, pat, from))
    ensures IndexOf(s, pat, from) == -1 ==> forall p :: from <= p ==> !OccursAt(s, pat, p)
    ensures IndexOf(s, pat, from) != -1 ==> forall p :: from <= p < IndexOf(s, pat, from) ==> !OccursAt(s, pat, p)
    decreases |s| - from
  {
    if from + |pat| <= |s| && s[from..from + |pat|] != pat {
      IndexOfIsFirst(s, pat, from + 1);
    }
  }

  /** A one-character pattern occurs exactly where that character is. */
  lemma OccursAtChar(s: string, c: char, p: int)
    requires 0 <= p < |s|
    ensures OccursAt(s, [c], p) <==> s[p] == c
  {
    assert s[p..p + 1] == [s[p]];
  }

  // ---------------------------------------------------------------------------
  // split and join

  /** QString::split(sep) with empty parts kept: always at least one part, none containing sep. */
  function Split(s: string, sep: char): (parts: seq<string>)
    ensures |parts| >= 1
    ensures forall i :: 0 <= i < |parts| ==> sep !in parts[i]
    decreases |s|
  {
    if s == [] then [""]
    else
      var rest := Split(s[1..], sep);
      if s[0] == sep then [""] + rest
      else [[s[0]] + rest[0]] + rest[1..]
  }

  /** QStringList::join(sep), the inverse of Split. */
  function Join(parts: seq<string>, sep: char): string
    requires |parts| >= 1
    decreases |parts|
  {
    if |parts| == 1 then parts[0] else parts[0] + [sep] + Join(parts[1..], sep)
  }

  /** Joining the parts of a split gives the original string back. */
  lemma {:induction false} JoinSplit(s: string, sep: char)
    ensures Join(Split(s, sep), sep) == s
    decreases |s|
  {
    if s != [] {
      JoinSplit(s[1..], sep);
      var rest := Split(s[1..], sep);
      if s[0] != sep {
        if |rest| == 1 {
          assert Split(s, sep) == [[s[0]] + rest[0]];
        } else {
          assert Split(s, sep)[1..] == rest[1..];
          assert Join(rest, sep) == rest[0] + [sep] + Join(rest[1..], sep);
        }
      }
    }
  }

  /** Splitting a string that starts with a sep-free part a followed by sep. */
  lemma {:induction false} SplitAfterPart(a: string, sep: char, b: string)
    requires sep !in a
    ensures Split(a + [sep] + b, sep) == [a] + Split(b, sep)
    decreases |a|
  {
    if a == [] {
      assert a + [sep] + b == [sep] + b;
      assert ([sep] + b)[1..] == b;
    } else {
      SplitAfterPart(a[1..], sep, b);
      assert (a + [sep] + b)[1..] == a[1..] + [sep] + b;
      assert [a[0]] + a[1..] == a;
    }
  }

  /** Splitting a joined list of sep-free parts gives the parts back. */
  lemma {:induction false} SplitJoin(parts: seq<string>, sep: char)
    requires |parts| >= 1
    requires forall i :: 0 <= i < |parts| ==> sep !in parts[i]
    ensures Split(Join(parts, sep), sep) == parts
    decreases |parts|
  {
    if |parts| == 1 {
      SplitWithoutSep(parts[0], sep);
    } else {
      SplitJoin(parts[1..], sep);
      SplitAfterPart(parts[0], sep, Join(parts[1..], sep));
      assert [parts[0]] + parts[1..] == parts;
    }
  }

  /** A string without sep splits into itself alone. */
  lemma {:induction false} SplitWithoutSep(s: string, sep: char)
    requires sep !in s
    ensures Split(s, sep) == [s]
    decreases |s|
  {
    if s != [] {
      SplitWithoutSep(s[1..], sep);
      assert [s[0]] + s[1..] == s;
    }
  }

  /** A string splits into two or more parts exactly when it contains sep. */
  lemma {:induction false} SplitHasSeveralParts(s: string, sep: char)
    ensures |Split(s, sep)| >= 2 <==> sep in s
    decreases |s|
  {
    if s != [] {
      SplitHasSeveralParts(s[1..], sep);
      assert sep in s <==> s[0] == sep || sep in s[1..];
    }
  }

  // ---------------------------------------------------------------------------
  // toLower and left

  function LowerChar(c: char): char
  {
    if 'A' <= c <= 'Z' then (c as int + 32) as char else c
  }

  /** QString::toLower on the ASCII letters (other characters are kept). */
  function ToLower(s: string): (r: string)
    ensures |r| == |s|
  {
    seq(|s|, i requires 0 <= i < |s| => LowerChar(s[i]))
  }

  /** Lower-casing turns 'A' to 'Z' into 'a' to 'z' and keeps every other character. */
  lemma ToLowerLetters(s: string)
    ensures forall i :: 0 <= i < |s| && 'A' <= s[i] <= 'Z' ==>
              'a' <= ToLower(s)[i] <= 'z' && ToLower(s)[i] as int - s[i] as int == 'a' as int - 'A' as int
    ensures forall i :: 0 <= i < |s| && !('A' <= s[i] <= 'Z') ==> ToLower(s)[i] == s[i]
  {
  }

  /** Lower-casing a lower-cased text changes nothing more. */
  lemma ToLowerIdempotent(s: string)
    ensures ToLower(ToLower(s)) == ToLower(s)
  {
    var t := ToLower(s);
    ToLowerLetters(s);
    ToLowerLetters(t);
    forall i | 0 <= i < |t| ensures ToLower(t)[i] == t[i] {
      assert !('A' <= t[i] <= 'Z');
    }
  }

  /** QString::left(n): the first n characters, or the whole string when it is shorter. */
  function Left(s: string, n: nat): (r: string)
    ensures |r| <= n && |r| <= |s|
    ensures r <= s
    ensures |s| >= n ==> |r| == n
    ensures |s| <= n ==> r == s
  {
    if |s| <= n then s else s[..n]
  }

  // ---------------------------------------------------------------------------
  // numbers

  predicate IsDigit(c: char)
  {
    '0' <= c <= '9'
  }

  predicate AllDigits(s: string)
  {
    forall i :: 0 <= i < |s| ==> IsDigit(s[i])
  }

  /** The value of a string of decimal digits (most significant first). */
  function DigitsValue(s: string): nat
    requires AllDigits(s)
    decreases |s|
  {
    if s == [] then 0 else DigitsValue(s[..|s| - 1]) * 10 + (s[|s| - 1] as int - '0' as int)
  }

  function DigitChar(d: nat): (c: char)
    requires d < 10
    ensures IsDigit(c) && c as int - '0' as int == d
  {
    ('0' as int + d) as char
  }

  const IntMin: int := -0x8000_0000
  const IntMax: int := 0x7fff_ffff

  /** The sign-free part of a number text: without its leading '+' or '-'. */
  function Unsigned(s: string): string
  {
    if |s| > 0 && (s[0] == '-' || s[0] == '+') then s[1..] else s
  }

  /**
   * QString::toInt: an optional sign followed by at least one decimal digit, whose
   * value fits a 32-bit int; every other text gives 0.
   */
  function ParseInt(s: string): (r: int)
    ensures IntMin <= r <= IntMax
    ensures r != 0 ==> |Unsigned(s)| > 0 && AllDigits(Unsigned(s))
  {
    var body := Unsigned(s);
    if body == [] || !AllDigits(body) then 0
    else
      var v := if s[0] == '-' then -(DigitsValue(body) as int) else DigitsValue(body) as int;
      if IntMin <= v <= IntMax then v else 0
  }

  /** QString::number for a non-negative int: decimal digits without leading zeros. */
  function NatToString(n: nat): (r: string)
    ensures |r| >= 1 && AllDigits(r)
    ensures r[0] == '0' ==> n == 0
    decreases n
  {
    if n < 10 then [DigitChar(n)] else NatToString(n / 10) + [DigitChar(n % 10)]
  }

  /** QString::number for an int. */
  function IntToString(n: int): (r: string)
    ensures |r| >= 1
    ensures n >= 0 ==> r == NatToString(n)
    ensures n < 0 ==> r == "-" + NatToString(-n)
  {
    if n < 0 then "-" + NatToString(-n) else NatToString(n)
  }

  lemma {:induction false} DigitsOfNatToString(n: nat)
    ensures DigitsValue(NatToString(n)) == n
    decreases n
  {
    if n >= 10 {
      DigitsOfNatToString(n / 10);
      var s := NatToString(n / 10) + [DigitChar(n % 10)];
      assert s[..|s| - 1] == NatToString(n / 10);
    }
  }

  /** toInt reads back every 32-bit number that QString::number writes. */
  lemma ParseIntOfIntToString(n: int)
    requires IntMin <= n <= IntMax
    ensures ParseInt(IntToString(n)) == n
  {
    var s := IntToString(n);
    if n < 0 {
      DigitsOfNatToString(-n);
      assert Unsigned(s) == NatToString(-n);
    } else {
      DigitsOfNatToString(n);
      assert Unsigned(s) == NatToString(n);
    }
  }

  /** QString::number is injective, so distinct years have distinct keys. */
  lemma IntToStringInjective(a: int, b: int)
    requires IntMin <= a <= IntMax && IntMin <= b <= IntMax
    requires IntToString(a) == IntToString(b)
    ensures a == b
  {
    ParseIntOfIntToString(a);
    ParseIntOfIntToString(b);
  }

  /**
   * C++ integer division of ints, which truncates toward zero: the quotient is the
   * whole number of divisors in the dividend, on the dividend's side of zero.
   */
  function CDiv(a: int, b: int): (q: int)
    requires b > 0
    ensures a >= 0 ==> 0 <= q && q * b <= a < q * b + b
    ensures a < 0 ==> q <= 0 && q * b - b < a <= q * b
    ensures a >= 0 ==> q == a / b
  {
    if a >= 0 then
      DivisionBounds(a, b);
      a / b
    else
      var m := (-a) / b;
      DivisionBounds(-a, b);
      assert (-m) * b == -(m * b);
      -m
  }

  /** Euclidean division of a natural number: the quotient's multiple lies within one divisor. */
  lemma DivisionBounds(n: int, b: int)
    requires n >= 0 && b > 0
    ensures n / b >= 0 && (n / b) * b <= n < (n / b) * b + b
  {
    assert n == (n / b) * b + n % b;
  }

  /** C++ remainder, which takes the sign of the dividend. */
  function CRem(a: int, b: int): (r: int)
    requires b > 0
    ensures a == CDiv(a, b) * b + r
    ensures a >= 0 ==> 0 <= r < b && r == a % b
    ensures a < 0 ==> -b < r <= 0
  {
    a - CDiv(a, b) * b
  }

  function Pow10(k: nat): (r: nat)
    ensures r >= 1
  {
    if k == 0 then 1 else 10 * Pow10(k - 1)
  }

  /** A number text accepted by toFloat: digits, at most one '.', and at least one digit. */
  predicate IsDecimal(body: string)
  {
    var parts := Split(body, '.');
    && |parts| <= 2
    && AllDigits(parts[0])
    && (|parts| == 2 ==> AllDigits(parts[1]))
    && (parts[0] != [] || (|parts| == 2 && parts[1] != []))
  }

  /** The value of a decimal text accepted by IsDecimal. */
  function DecimalValue(body: string): real
    requires IsDecimal(body)
  {
    var parts := Split(body, '.');
    DigitsValue(parts[0]) as real
      + (if |parts| == 2 then DigitsValue(parts[1]) as real / Pow10(|parts[1]|) as real else 0.0)
  }

  /**
   * QString::toFloat on plain decimal texts: an optional sign, digits and an optional
   * fraction; every other text gives 0.
   */
  function ParseReal(s: string): (r: real)
    ensures r != 0.0 ==> IsDecimal(Unsigned(s))
  {
    var body := Unsigned(s);
    if !IsDecimal(body) then 0.0
    else if |s| > 0 && s[0] == '-' then -DecimalValue(body)
    else DecimalValue(body)
  }

  /** toFloat reads a digit string as the whole number it denotes. */
  lemma ParseRealOfDigits(s: string)
    requires s != [] && AllDigits(s)
    ensures ParseReal(s) == DigitsValue(s) as real
  {
    assert Unsigned(s) == s by {
      assert IsDigit(s[0]);
    }
    assert forall i :: 0 <= i < |s| ==> s[i] != '.' by {
      forall i | 0 <= i < |s| ensures s[i] != '.' {
        assert IsDigit(s[i]);
      }
    }
    SplitWithoutSep(s, '.');
  }

  // ---------------------------------------------------------------------------
  // ordering

  /** QString operator<: lexicographic on character codes, a proper prefix first. */
  predicate StrLt(a: string, b: string)
    decreases |a|
  {
    if a == [] then b != []
    else if b == [] then false
    else a[0] < b[0] || (a[0] == b[0] && StrLt(a[1..], b[1..]))
  }

  lemma {:induction false} StrLtIrreflexive(a: string)
    ensures !StrLt(a, a)
    decreases |a|
  {
    if a != [] {
      StrLtIrreflexive(a[1..]);
    }
  }

  lemma {:induction false} StrLtTransitive(a: string, b: string, c: string)
    requires StrLt(a, b) && StrLt(b, c)
    ensures StrLt(a, c)
    decreases |a|
  {
    if a != [] && b != [] && c != [] && a[0] == b[0] && b[0] == c[0] {
      StrLtTransitive(a[1..], b[1..], c[1..]);
    }
  }

  /** Any two different strings are ordered one way or the other. */
  lemma {:induction false} StrLtTotal(a: string, b: string)
    requires a != b
    ensures StrLt(a, b) || StrLt(b, a)
    decreases |a|
  {
    if a != [] && b != [] && a[0] == b[0] {
      assert a == [a[0]] + a[1..] && b == [b[0]] + b[1..];
      StrLtTotal(a[1..], b[1..]);
    }
  }

  lemma StrLtAsymmetric(a: string, b: string)
    requires StrLt(a, b)
    ensures !StrLt(b, a)
  {
    if StrLt(b, a) {
      StrLtTransitive(a, b, a);
      StrLtIrreflexive(a);
    }
  }

  /** m is the least element of s. */
  predicate IsLeast(m: string, s: set<string>)
  {
    m in s && forall x :: x in s ==> !StrLt(x, m)
  }

  /** Every finite non-empty set of strings has a least element. */
  lemma {:induction false} LeastExists(s: set<string>)
    requires s != {}
    ensures exists m :: IsLeast(m, s)
    decreases |s|
  {
    var x :| x in s;
    if s - {x} == {} {
      assert s == {x};
      StrLtIrreflexive(x);
      assert IsLeast(x, s);
    } else {
      LeastExists(s - {x});
      var m :| IsLeast(m, s - {x});
      if StrLt(x, m) {
        forall y | y in s ensures !StrLt(y, x) {
          if y != x && StrLt(y, x) {
            StrLtTransitive(y, x, m);
          }
          StrLtIrreflexive(x);
        }
        assert IsLeast(x, s);
      } else {
        assert IsLeast(m, s);
      }
    }
  }

  /** No text comes before the empty text. */
  lemma NothingBeforeEmpty(a: string)
    ensures !StrLt(a, "")
  {
  }

  /** The least element is unique. */
  lemma LeastUnique(m: string, n: string, s: set<string>)
    requires IsLeast(m, s) && IsLeast(n, s)
    ensures m == n
  {
    if m != n {
      StrLtTotal(m, n);
    }
  }

  /** The keys of a QMap in iteration order: ascending under StrLt. */
  ghost function SortedKeys(s: set<string>): seq<string>
    decreases |s|
  {
    if s == {} then []
    else
      LeastExists(s);
      var m :| IsLeast(m, s);
      [m] + SortedKeys(s - {m})
  }

  /** SortedKeys lists every element of the set once, in strictly ascending order. */
  lemma {:induction false} SortedKeysEnumerates(s: set<string>)
    ensures |SortedKeys(s)| == |s|
    ensures forall x :: x in s <==> x in SortedKeys(s)
    ensures forall i, j :: 0 <= i < j < |SortedKeys(s)| ==> StrLt(SortedKeys(s)[i], SortedKeys(s)[j])
    decreases |s|
  {
    if s != {} {
      LeastExists(s);
      var m :| IsLeast(m, s);
      SortedKeysUnfold(m, s);
      var rest := SortedKeys(s - {m});
      SortedKeysEnumerates(s - {m});
      forall i | 0 <= i < |rest| ensures StrLt(m, rest[i]) {
        assert rest[i] in s - {m};
        StrLtTotal(m, rest[i]);
      }
    }
  }

  lemma SortedKeysUnfold(m: string, s: set<string>)
    requires IsLeast(m, s)
    ensures SortedKeys(s) == [m] + SortedKeys(s - {m})
  {
    LeastExists(s);
    var c := SortedKeys(s)[0];
    assert IsLeast(c, s) && SortedKeys(s) == [c] + SortedKeys(s - {c});
    LeastUnique(m, c, s);
  }

  /** Lists the keys of a set in ascending order, as QMap::keys does. */
  method OrderedKeys(s: set<string>) returns (keys: seq<string>)
    ensures keys == SortedKeys(s)
  {
    keys := [];
    var remaining := s;
    while remaining != {}
      invariant remaining <= s
      invariant SortedKeys(s) == keys + SortedKeys(remaining)
      decreases |remaining|
    {
      LeastExists(remaining);
      var m :| IsLeast(m, remaining);
      SortedKeysUnfold(m, remaining);
      ghost var rest := SortedKeys(remaining - {m});
      assert keys + ([m] + rest) == (keys + [m]) + rest;
      keys := keys + [m];
      remaining := remaining - {m};
    }
  }
}
