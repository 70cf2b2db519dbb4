/** The parts of Go's `strings` and `fmt` packages that the core relies on:
    trimming, ASCII case folding, joining and splitting on a separator, and
    decimal formatting with zero padding (`%d`, `%03d`). */
module Strings {

  // ---------------------------------------------------------------------
  // Trimming (strings.Trim with a cut set, strings.TrimSpace)
  // ---------------------------------------------------------------------

  /** The characters `strings.TrimSpace` removes: the ASCII white space of
      Go's fast path plus NEL and NO-BREAK SPACE. */
  const Whitespace: set<char> :=
    {' ', '\t', '\n', '\r', '\U{000B}', '\U{000C}', '\U{0085}', '\U{00A0}'}

  /** Number of leading characters of `s` that belong to `cut`. */
  function LeadingCut(s: string, cut: set<char>): (k: nat)
    ensures k <= |s|
  {
    if s == [] || s[0] !in cut then 0 else 1 + LeadingCut(s[1..], cut)
  }

  /** The leading cut is the longest prefix made only of characters in `cut`. */
  lemma {:induction false} LeadingCutShape(s: string, cut: set<char>)
    ensures forall i :: 0 <= i < LeadingCut(s, cut) ==> s[i] in cut
    ensures LeadingCut(s, cut) < |s| ==> s[LeadingCut(s, cut)] !in cut
  {
    if s != [] && s[0] in cut {
      LeadingCutShape(s[1..], cut);
      assert forall i :: 1 <= i < |s| ==> s[i] == s[1..][i - 1];
    }
  }

  /** Number of trailing characters of `s` that belong to `cut`. */
  function TrailingCut(s: string, cut: set<char>): (k: nat)
    ensures k <= |s|
  {
    if s == [] || s[|s| - 1] !in cut then 0 else 1 + TrailingCut(s[..|s| - 1], cut)
  }

  /** The trailing cut is the longest suffix made only of characters in `cut`. */
  lemma {:induction false} TrailingCutShape(s: string, cut: set<char>)
    ensures forall i :: |s| - TrailingCut(s, cut) <= i < |s| ==> s[i] in cut
    ensures TrailingCut(s, cut) < |s| ==> s[|s| - 1 - TrailingCut(s, cut)] !in cut
  {
    if s != [] && s[|s| - 1] in cut {
      TrailingCutShape(s[..|s| - 1], cut);
    }
  }

  /** Drops the leading characters of `s` that belong to `cut`. */
  function TrimLeft(s: string, cut: set<char>): (r: string)
    ensures |r| <= |s|
  {
    if s != [] && s[0] in cut then TrimLeft(s[1..], cut) else s
  }

  /** Drops the trailing characters of `s` that belong to `cut`. */
  function TrimRight(s: string, cut: set<char>): (r: string)
    ensures |r| <= |s|
  {
    if s != [] && s[|s| - 1] in cut then TrimRight(s[..|s| - 1], cut) else s
  }

  /** `strings.Trim(s, cutset)`: drops every leading and trailing character
      in `cut`. */
  function Trim(s: string, cut: set<char>): (r: string)
    ensures |r| <= |s|
  {
    TrimRight(TrimLeft(s, cut), cut)
  }

  lemma {:induction false} TrimLeftDrops(s: string, cut: set<char>)
    ensures TrimLeft(s, cut) == s[LeadingCut(s, cut)..]
  {
    if s != [] && s[0] in cut {
      TrimLeftDrops(s[1..], cut);
      assert s[1..][LeadingCut(s[1..], cut)..] == s[1 + LeadingCut(s[1..], cut)..];
    }
  }

  lemma {:induction false} TrimRightTakes(s: string, cut: set<char>)
    ensures TrimRight(s, cut) == s[..|s| - TrailingCut(s, cut)]
  {
    if s != [] && s[|s| - 1] in cut {
      TrimRightTakes(s[..|s| - 1], cut);
      assert s[..|s| - 1][..|s| - 1 - TrailingCut(s[..|s| - 1], cut)] == s[..|s| - 1 - TrailingCut(s[..|s| - 1], cut)];
    }
  }

  /** The trimmed string is the slice of `s` between the first and the last
      character outside `cut`, and is empty when there is none. */
  lemma {:induction false} TrimShape(s: string, cut: set<char>)
    ensures LeadingCut(s, cut) + |Trim(s, cut)| <= |s|
    ensures Trim(s, cut) == s[LeadingCut(s, cut)..LeadingCut(s, cut) + |Trim(s, cut)|]
    ensures forall i :: LeadingCut(s, cut) + |Trim(s, cut)| <= i < |s| ==> s[i] in cut
    ensures Trim(s, cut) != [] ==> Trim(s, cut)[0] !in cut && Trim(s, cut)[|Trim(s, cut)| - 1] !in cut
    ensures Trim(s, cut) == [] <==> forall i :: 0 <= i < |s| ==> s[i] in cut
  {
    LeadingCutShape(s, cut);
    TrailingCutShape(s[LeadingCut(s, cut)..], cut);
    TrimLeftDrops(s, cut);
    TrimRightTakes(s[LeadingCut(s, cut)..], cut);
  }

  function TrimSpace(s: string): string {
    Trim(s, Whitespace)
  }

  /** Trimming twice is trimming once. */
  lemma TrimIdempotent(s: string, cut: set<char>)
    ensures Trim(Trim(s, cut), cut) == Trim(s, cut)
  {
    var r := Trim(s, cut);
    TrimShape(s, cut);
    if r != [] {
      assert LeadingCut(r, cut) == 0;
      assert TrailingCut(r, cut) == 0;
      assert r[0..] == r;
    }
  }

  // ---------------------------------------------------------------------
  // ASCII case folding (strings.ToLower, strings.EqualFold)
  // ---------------------------------------------------------------------

  function LowerChar(c: char): (d: char)
    ensures 'A' <= c <= 'Z' ==> d as int == c as int + 32
    ensures !('A' <= c <= 'Z') ==> d == c
  {
    if 'A' <= c <= 'Z' then (c as int + 32) as char else c
  }

  /** `strings.ToLower`, restricted to ASCII letters. */
  function ToLower(s: string): (r: string)
    ensures |r| == |s|
  {
    if s == [] then [] else [LowerChar(s[0])] + ToLower(s[1..])
  }

  /** Lower-casing works character by character. */
  lemma {:induction false} ToLowerAt(s: string)
    ensures forall i :: 0 <= i < |s| ==> ToLower(s)[i] == LowerChar(s[i])
  {
    if s != [] {
      ToLowerAt(s[1..]);
      assert forall i :: 1 <= i < |s| ==> ToLower(s)[i] == ToLower(s[1..])[i - 1];
    }
  }

  /** `strings.EqualFold` under ASCII case folding: the strings have the
      same length and agree character by character up to case. */
  predicate EqualFold(a: string, b: string) {
    |a| == |b| && (a == [] || (LowerChar(a[0]) == LowerChar(b[0]) && EqualFold(a[1..], b[1..])))
  }

  /** Equal under folding is equal once lower-cased. */
  lemma {:induction false} EqualFoldLower(a: string, b: string)
    ensures EqualFold(a, b) <==> ToLower(a) == ToLower(b)
  {
    if |a| == |b| && a != [] {
      EqualFoldLower(a[1..], b[1..]);
      var la, lb := ToLower(a), ToLower(b);
      assert la == [LowerChar(a[0])] + ToLower(a[1..]);
      assert lb == [LowerChar(b[0])] + ToLower(b[1..]);
      if la == lb {
        assert la[0] == lb[0];
        assert la[1..] == ToLower(a[1..]) && lb[1..] == ToLower(b[1..]);
      }
    }
  }

  /** Equal under folding means the same length and, position by position,
      the same letter up to case. */
  lemma {:induction false} EqualFoldAt(a: string, b: string)
    ensures EqualFold(a, b) <==>
      |a| == |b| && forall i :: 0 <= i < |a| ==> LowerChar(a[i]) == LowerChar(b[i])
  {
    if |a| == |b| && a != [] {
      EqualFoldAt(a[1..], b[1..]);
      assert forall i :: 1 <= i < |a| ==> a[i] == a[1..][i - 1] && b[i] == b[1..][i - 1];
    }
  }

  // ---------------------------------------------------------------------
  // strings.Join and strings.Split
  // ---------------------------------------------------------------------

  /** `strings.Join(elems, sep)`. */
  function Join(elems: seq<string>, sep: string): string {
    if elems == [] then ""
    else if |elems| == 1 then elems[0]
    else elems[0] + sep + Join(elems[1..], sep)
  }

  function TotalLength(elems: seq<string>): nat {
    if elems == [] then 0 else |elems[0]| + TotalLength(elems[1..])
  }

  /** The length of the joined string: the elements' lengths plus one
      separator between each neighbouring pair. */
  lemma {:induction false} JoinLength(elems: seq<string>, sep: string)
    requires elems != []
    ensures |Join(elems, sep)| == TotalLength(elems) + (|elems| - 1) * |sep|
  {
    if |elems| > 1 {
      JoinLength(elems[1..], sep);
    }
  }

  /** Joining two non-empty lists one after the other is joining each and
      putting one separator between the two results: the output is the
      elements in order, one separator between neighbours, and nothing else. */
  lemma {:induction false} JoinAppend(a: seq<string>, b: seq<string>, sep: string)
    requires a != [] && b != []
    ensures Join(a + b, sep) == Join(a, sep) + sep + Join(b, sep)
  {
    if |a| == 1 {
      assert (a + b)[1..] == b;
    } else {
      JoinAppend(a[1..], b, sep);
      assert (a + b)[1..] == a[1..] + b;
    }
  }

  /** Index of the first `c` in `s`, or `|s|` when there is none. */
  function IndexOf(s: string, c: char): (k: nat)
    ensures k <= |s|
    ensures forall i :: 0 <= i < k ==> s[i] != c
    ensures k < |s| ==> s[k] == c
  {
    if s == [] then 0 else if s[0] == c then 0 else 1 + IndexOf(s[1..], c)
  }

  /** `strings.Split(s, sep)` for a one-character separator. */
  function Split(s: string, c: char): (r: seq<string>)
    ensures r != []
    decreases |s|
  {
    var k := IndexOf(s, c);
    if k == |s| then [s] else [s[..k]] + Split(s[k + 1..], c)
  }

  /** Splitting a newline-joined list whose elements hold no newline gives
      the list back. */
  lemma {:induction false} SplitJoin(elems: seq<string>, c: char)
    requires elems != []
    requires forall i :: 0 <= i < |elems| ==> c !in elems[i]
    ensures Split(Join(elems, [c]), c) == elems
  {
    if |elems| == 1 {
      assert IndexOf(elems[0], c) == |elems[0]|;
    } else {
      var a, rest := elems[0], Join(elems[1..], [c]);
      var s := a + [c] + rest;
      assert s == Join(elems, [c]);
      assert s[|a|] == c;
      assert IndexOf(s, c) == |a| by {
        assert forall i :: 0 <= i < |a| ==> s[i] == a[i];
      }
      assert s[..|a|] == a;
      assert s[|a| + 1..] == rest;
      SplitJoin(elems[1..], c);
    }
  }

  // ---------------------------------------------------------------------
  // Decimal formatting: fmt's %d and %03d for non-negative integers
  // ---------------------------------------------------------------------

  function DigitChar(d: nat): (c: char)
    requires d < 10
  {
    ('0' as int + d) as char
  }

  predicate IsDigit(c: char) {
    '0' <= c <= '9'
  }

  function DigitValue(c: char): nat
    requires IsDigit(c)
  {
    c as int - '0' as int
  }

  /** The shortest decimal rendering of `n`, as `%d` prints it. */
  function Decimal(n: nat): (r: string)
    ensures 1 <= |r|
    ensures forall i :: 0 <= i < |r| ==> IsDigit(r[i])
    ensures n < 10 ==> |r| == 1
    ensures n < 1000 ==> |r| <= 3
    ensures r[0] == '0' <==> n == 0
  {
    if n < 10 then [DigitChar(n)] else Decimal(n / 10) + [DigitChar(n % 10)]
  }

  function Zeros(k: nat): (r: string)
    ensures |r| == k
    ensures forall i :: 0 <= i < k ==> r[i] == '0'
  {
    if k == 0 then "" else "0" + Zeros(k - 1)
  }

  /** `%0<width>d` of a non-negative `n`: the decimal rendering, left-padded
      with zeros up to `width` characters; longer renderings are kept whole. */
  function ZeroPad(n: nat, width: nat): (r: string)
    ensures |r| == if |Decimal(n)| < width then width else |Decimal(n)|
    ensures forall i :: 0 <= i < |r| ==> IsDigit(r[i])
  {
    var d := Decimal(n);
    if |d| < width then Zeros(width - |d|) + d else d
  }

  /** The number a string of decimal digits denotes. */
  function DigitsValue(s: string): nat
    requires forall i :: 0 <= i < |s| ==> IsDigit(s[i])
  {
    if s == [] then 0 else 10 * DigitsValue(s[..|s| - 1]) + DigitValue(s[|s| - 1])
  }

  lemma {:induction false} DecimalValue(n: nat)
    ensures DigitsValue(Decimal(n)) == n
  {
    if n >= 10 {
      var d := Decimal(n);
      assert d[..|d| - 1] == Decimal(n / 10);
      DecimalValue(n / 10);
    }
  }

  lemma {:induction false} LeadingZerosValue(k: nat, s: string)
    requires forall i :: 0 <= i < |s| ==> IsDigit(s[i])
    ensures DigitsValue(Zeros(k) + s) == DigitsValue(s)
    decreases |s|, k
  {
    var z := Zeros(k) + s;
    if s == [] {
      assert z == Zeros(k);
      if k > 0 {
        assert z[..|z| - 1] == Zeros(k - 1);
        LeadingZerosValue(k - 1, "");
        assert Zeros(k - 1) + "" == Zeros(k - 1);
      }
    } else {
      assert z[..|z| - 1] == Zeros(k) + s[..|s| - 1];
      LeadingZerosValue(k, s[..|s| - 1]);
    }
  }

  /** Zero padding can be read back: the padded digits still denote `n`. */
  lemma ZeroPadValue(n: nat, width: nat)
    ensures DigitsValue(ZeroPad(n, width)) == n
  {
    var d := Decimal(n);
    assert DigitsValue(d) == n by { DecimalValue(n); }
    if |d| < width {
      assert DigitsValue(Zeros(width - |d|) + d) == DigitsValue(d) by {
        LeadingZerosValue(width - |d|, d);
      }
      assert ZeroPad(n, width) == Zeros(width - |d|) + d;
    } else {
      assert ZeroPad(n, width) == d;
    }
  }

  /** Distinct numbers never share a zero-padded rendering. */
  lemma ZeroPadInjective(n: nat, m: nat, width: nat)
    requires ZeroPad(n, width) == ZeroPad(m, width)
    ensures n == m
  {
    ZeroPadValue(n, width);
    ZeroPadValue(m, width);
  }

  /** Below 1000, `%03d` prints exactly three digits, most significant first. */
  lemma ThreeDigits(n: nat)
    requires n < 1000
    ensures ZeroPad(n, 3) == [DigitChar(n / 100), DigitChar(n / 10 % 10), DigitChar(n % 10)]
  {
    if n < 10 {
      assert Zeros(2) == "00";
    } else if n < 100 {
      assert Decimal(n) == Decimal(n / 10) + [DigitChar(n % 10)];
      assert Zeros(1) == "0";
    } else {
      assert Decimal(n) == Decimal(n / 10) + [DigitChar(n % 10)];
      assert Decimal(n / 10) == Decimal(n / 100) + [DigitChar(n / 10 % 10)];
      assert n / 10 / 10 == n / 100;
    }
  }

  // ---------------------------------------------------------------------
  // Lexical order: Go's `<` on strings, and sort.Strings
  // ---------------------------------------------------------------------

  /** `a < b` on Go strings: byte-wise lexical order, which on UTF-8 is the
      order of the code points; a proper prefix comes first. */
  predicate Less(a: string, b: string) {
    if a == [] then b != []
    else b != [] && (a[0] < b[0] || (a[0] == b[0] && Less(a[1..], b[1..])))
  }

  lemma {:induction false} LessAsymmetric(a: string, b: string)
    requires Less(a, b)
    ensures !Less(b, a)
  {
    if a != [] && b != [] && a[0] == b[0] {
      LessAsymmetric(a[1..], b[1..]);
    }
  }

  /** Two different strings are ordered one way or the other. */
  lemma {:induction false} LessTotal(a: string, b: string)
    ensures a == b || Less(a, b) || Less(b, a)
  {
    if a != [] && b != [] && a[0] == b[0] {
      LessTotal(a[1..], b[1..]);
      if a[1..] == b[1..] {
        assert a == [a[0]] + a[1..] && b == [b[0]] + b[1..];
      }
    }
  }

  /** A common prefix does not change the order. */
  lemma {:induction false} LessPrefix(p: string, a: string, b: string)
    ensures Less(p + a, p + b) <==> Less(a, b)
  {
    if p != [] {
      assert (p + a)[1..] == p[1..] + a;
      assert (p + b)[1..] == p[1..] + b;
      LessPrefix(p[1..], a, b);
    } else {
      assert p + a == a && p + b == b;
    }
  }

  /** A smaller first character decides the order. */
  lemma LessHead(c: char, d: char, x: string, y: string)
    requires c < d
    ensures Less([c] + x, [d] + y)
  {
    assert ([c] + x)[0] == c && ([d] + y)[0] == d;
  }

  /** Going from the most significant digit down, the first digit of three
      that differs is smaller in the smaller number. */
  lemma DigitsOrder(n: nat, m: nat)
    requires n < m < 1000
    ensures n / 100 < m / 100 ||
      (n / 100 == m / 100 && (n / 10 % 10 < m / 10 % 10 ||
        (n / 10 % 10 == m / 10 % 10 && n % 10 < m % 10)))
  {
    assert n == 100 * (n / 100) + 10 * (n / 10 % 10) + n % 10;
    assert m == 100 * (m / 100) + 10 * (m / 10 % 10) + m % 10;
  }

  /** Three-digit renderings followed by anything are ordered as the numbers
      they denote. */
  lemma ZeroPadOrder(n: nat, m: nat, x: string, y: string)
    requires n < m < 1000
    ensures Less(ZeroPad(n, 3) + x, ZeroPad(m, 3) + y)
  {
    ThreeDigits(n);
    ThreeDigits(m);
    DigitsOrder(n, m);
    var a0, a1, a2 := DigitChar(n / 100), DigitChar(n / 10 % 10), DigitChar(n % 10);
    var b0, b1, b2 := DigitChar(m / 100), DigitChar(m / 10 % 10), DigitChar(m % 10);
    assert ZeroPad(n, 3) + x == [a0] + ([a1] + ([a2] + x));
    assert ZeroPad(m, 3) + y == [b0] + ([b1] + ([b2] + y));
    if n / 100 < m / 100 {
      LessHead(a0, b0, [a1] + ([a2] + x), [b1] + ([b2] + y));
    } else {
      LessPrefix([a0], [a1] + ([a2] + x), [b1] + ([b2] + y));
      if n / 10 % 10 < m / 10 % 10 {
        LessHead(a1, b1, [a2] + x, [b2] + y);
      } else {
        LessPrefix([a1], [a2] + x, [b2] + y);
        LessHead(a2, b2, x, y);
      }
    }
  }

  /** `x` placed before the first element of `s` that is not below it. */
  function Insert(x: string, s: seq<string>): (r: seq<string>)
    ensures |r| == |s| + 1
  {
    if s == [] || !Less(s[0], x) then [x] + s else [s[0]] + Insert(x, s[1..])
  }

  /** `sort.Strings`: the strings in non-decreasing lexical order. */
  function Sort(s: seq<string>): (r: seq<string>)
    ensures |r| == |s|
  {
    if s == [] then [] else Insert(s[0], Sort(s[1..]))
  }

  /** No element is below the one before it. */
  predicate Ordered(s: seq<string>) {
    forall i :: 0 < i < |s| ==> !Less(s[i], s[i - 1])
  }

  lemma {:induction false} InsertMultiset(x: string, s: seq<string>)
    ensures multiset(Insert(x, s)) == multiset{x} + multiset(s)
  {
    if s != [] && Less(s[0], x) {
      InsertMultiset(x, s[1..]);
      assert s == [s[0]] + s[1..];
    }
  }

  lemma {:induction false} InsertOrdered(x: string, s: seq<string>)
    requires Ordered(s)
    ensures Ordered(Insert(x, s))
    ensures Insert(x, s)[0] == x || Insert(x, s)[0] == s[0]
  {
    if s != [] && Less(s[0], x) {
      var rest := s[1..];
      assert Ordered(rest) by {
        forall i | 0 < i < |rest| ensures !Less(rest[i], rest[i - 1]) {
          assert rest[i] == s[i + 1] && rest[i - 1] == s[i];
        }
      }
      InsertOrdered(x, rest);
      LessAsymmetric(s[0], x);
      var r := Insert(x, s);
      assert r == [s[0]] + Insert(x, rest);
      forall i | 0 < i < |r| ensures !Less(r[i], r[i - 1]) {
        if i > 1 {
          assert r[i] == Insert(x, rest)[i - 1] && r[i - 1] == Insert(x, rest)[i - 2];
        }
      }
    }
  }

  /** Sorting yields an ordered permutation of its input. */
  lemma {:induction false} SortOrderedPermutation(s: seq<string>)
    ensures Ordered(Sort(s))
    ensures multiset(Sort(s)) == multiset(s)
  {
    if s != [] {
      SortOrderedPermutation(s[1..]);
      InsertOrdered(s[0], Sort(s[1..]));
      InsertMultiset(s[0], Sort(s[1..]));
      assert s == [s[0]] + s[1..];
    }
  }

  /** Strings already in strictly increasing order are left where they are. */
  lemma {:induction false} SortIncreasing(s: seq<string>)
    requires forall i :: 0 < i < |s| ==> Less(s[i - 1], s[i])
    ensures Sort(s) == s
  {
    if s != [] {
      var rest := s[1..];
      assert forall i :: 0 < i < |rest| ==> Less(rest[i - 1], rest[i]) by {
        forall i | 0 < i < |rest| ensures Less(rest[i - 1], rest[i]) {
          assert rest[i - 1] == s[i] && rest[i] == s[i + 1];
        }
      }
      SortIncreasing(rest);
      if rest != [] {
        LessAsymmetric(s[0], s[1]);
      }
      assert s == [s[0]] + rest;
    }
  }

  // ---------------------------------------------------------------------
  // fmt.Sprintf with %s verbs
  // ---------------------------------------------------------------------

  /** `fmt.Sprintf` for a format whose only verbs are `%s`: each verb takes
      the next argument literally; a verb with no argument left prints
      `%!s(MISSING)`. */
  function Sprintf(format: string, args: seq<string>): string
    decreases |format|
  {
    if format == [] then ""
    else if |format| >= 2 && format[0] == '%' && format[1] == 's' then
      (if args == [] then "%!s(MISSING)" else args[0]) +
      Sprintf(format[2..], if args == [] then [] else args[1..])
    else [format[0]] + Sprintf(format[1..], args)
  }

  /** A leading `%s` takes the first argument. */
  lemma VerbS(f: string, args: seq<string>)
    requires |f| >= 2 && f[0] == '%' && f[1] == 's' && args != []
    ensures Sprintf(f, args) == args[0] + Sprintf(f[2..], args[1..])
  {
  }

  /** Literal text without `%` is copied as it is. */
  lemma {:induction false} SprintfLiteral(lit: string, rest: string, args: seq<string>)
    requires '%' !in lit
    ensures Sprintf(lit + rest, args) == lit + Sprintf(rest, args)
  {
    if lit != [] {
      var f := lit + rest;
      assert f[0] == lit[0] && lit[0] != '%';
      assert f[1..] == lit[1..] + rest;
      assert '%' !in lit[1..];
      SprintfLiteral(lit[1..], rest, args);
      assert Sprintf(f, args) == [f[0]] + Sprintf(f[1..], args);
      assert lit == [lit[0]] + lit[1..];
      assert [lit[0]] + (lit[1..] + Sprintf(rest, args)) == lit + Sprintf(rest, args);
    } else {
      assert lit + rest == rest;
    }
  }

  lemma OneSlot(tail: string, b: string)
    requires '%' !in tail
    ensures Sprintf("%s" + tail, [b]) == b + tail
  {
    var f2 := "%s" + tail;
    VerbS(f2, [b]);
    assert [b][1..] == [];
    assert f2[2..] == tail;
    SprintfLiteral(tail, "", []);
    assert tail + "" == tail;
  }

  lemma SlotThenText(middle: string, tail: string, a: string, b: string)
    requires '%' !in middle && '%' !in tail
    ensures Sprintf("%s" + (middle + ("%s" + tail)), [a, b]) == a + (middle + (b + tail))
  {
    var f1 := "%s" + (middle + ("%s" + tail));
    VerbS(f1, [a, b]);
    assert f1[2..] == middle + ("%s" + tail);
    assert [a, b][1..] == [b];
    SprintfLiteral(middle, "%s" + tail, [b]);
    OneSlot(tail, b);
  }

  /** A two-slot format whose literal text holds no `%` puts each argument
      verbatim in its slot, whatever the arguments themselves contain. */
  lemma TwoSlots(head: string, middle: string, tail: string, a: string, b: string)
    requires '%' !in head && '%' !in middle && '%' !in tail
    ensures Sprintf(head + ("%s" + (middle + ("%s" + tail))), [a, b]) == head + (a + (middle + (b + tail)))
  {
    SprintfLiteral(head, "%s" + (middle + ("%s" + tail)), [a, b]);
    SlotThenText(middle, tail, a, b);
  }
}
