/**
  The string operations the scripts rely on, with Python's meaning:
  `str.strip()`, `str.split(',')`, `','.join(...)` and `str(int)`.
  Strings are sequences of Unicode scalar values.
 */
module Text {
  import opened Wrappers

  /** Python's `str.isspace()` for a single character. */
  predicate IsSpace(c: char) {
    ('\t' <= c && c <= '\r') || ('\U{1C}' <= c && c <= '\U{1F}') || c == ' '
    || c == '\U{85}' || c == '\U{A0}' || c == '\U{1680}'
    || ('\U{2000}' <= c && c <= '\U{200A}')
    || c == '\U{2028}' || c == '\U{2029}' || c == '\U{202F}' || c == '\U{205F}' || c == '\U{3000}'
  }

  predicate AllSpace(s: string) {
    forall k | 0 <= k < |s| :: IsSpace(s[k])
  }

  /** Neither end of `s` is whitespace: what `strip()` leaves behind. */
  predicate IsStripped(s: string) {
    s == [] || (!IsSpace(s[0]) && !IsSpace(s[|s| - 1]))
  }

  /**
    `s.strip()`: `s` without its leading and trailing whitespace. Python removes
    both ends at once; removing one character at a time, front first, gives the
    same string.
   */
  function Strip(s: string): (r: string)
    ensures IsStripped(r)
    ensures |r| <= |s|
  {
    if s != [] && IsSpace(s[0]) then Strip(s[1..])
    else if s != [] && IsSpace(s[|s| - 1]) then Strip(s[..|s| - 1])
    else s
  }

  /**
    What `strip()` cuts off is whitespace on both sides: `s` is the stripped
    string with a whitespace prefix and a whitespace suffix around it.
   */
  lemma {:induction false} StripDecompose(s: string) returns (pre: string, post: string)
    ensures s == pre + Strip(s) + post
    ensures AllSpace(pre) && AllSpace(post)
    decreases |s|
  {
    if s != [] && IsSpace(s[0]) {
      var p, q := StripDecompose(s[1..]);
      pre, post := [s[0]] + p, q;
      PrependSpace(s[0], p);
      Reattach([s[0]], s[1..], p, Strip(s), q);
    } else if s != [] && IsSpace(s[|s| - 1]) {
      var p, q := StripDecompose(s[..|s| - 1]);
      pre, post := p, q + [s[|s| - 1]];
      AppendSpace(q, s[|s| - 1]);
      Reattach(s[..|s| - 1], [s[|s| - 1]], p, Strip(s), q);
    } else {
      pre, post := [], [];
    }
  }

  lemma PrependSpace(c: char, p: string)
    requires IsSpace(c) && AllSpace(p)
    ensures AllSpace([c] + p)
  {
    assert forall k | 0 < k < |p| + 1 :: ([c] + p)[k] == p[k - 1];
  }

  lemma AppendSpace(q: string, c: char)
    requires IsSpace(c) && AllSpace(q)
    ensures AllSpace(q + [c])
  {
    assert forall k | 0 <= k < |q| :: (q + [c])[k] == q[k];
  }

  /** How a split of one part of `x + y` extends to the whole. */
  lemma Reattach<T>(x: seq<T>, y: seq<T>, p: seq<T>, m: seq<T>, q: seq<T>)
    ensures |x| == 1 && y == p + m + q ==> x + y == (x + p) + m + q
    ensures |y| == 1 && x == p + m + q ==> x + y == p + m + (q + y)
  {
  }

  /** A line is blank after `strip()` exactly when it is all whitespace. */
  lemma {:induction false} StripEmptyIff(s: string)
    ensures Strip(s) == [] <==> AllSpace(s)
    decreases |s|
  {
    var pre, post := StripDecompose(s);
    AllSpaceConcat(pre, Strip(s));
    AllSpaceConcat(pre + Strip(s), post);
  }

  /** Stripping an already stripped string changes nothing (so `strip()` is idempotent). */
  lemma StripStripped(s: string)
    requires IsStripped(s)
    ensures Strip(s) == s
  {
  }

  lemma AllSpaceConcat(a: string, b: string)
    ensures AllSpace(a + b) <==> AllSpace(a) && AllSpace(b)
  {
    if AllSpace(a + b) {
      forall k | 0 <= k < |b| ensures IsSpace(b[k]) {
        assert b[k] == (a + b)[|a| + k];
      }
      forall k | 0 <= k < |a| ensures IsSpace(a[k]) {
        assert a[k] == (a + b)[k];
      }
    }
    if AllSpace(a) && AllSpace(b) {
      forall k | 0 <= k < |a + b| ensures IsSpace((a + b)[k]) {
        if k < |a| { assert (a + b)[k] == a[k]; } else { assert (a + b)[k] == b[k - |a|]; }
      }
    }
  }

  /** Whitespace in front of a field does not survive `strip()`. */
  lemma {:induction false} StripSpacePrefix(a: string, f: string)
    requires AllSpace(a)
    ensures Strip(a + f) == Strip(f)
  {
    if a == [] {
      assert a + f == f;
    } else {
      var af := a + f;
      assert af[0] == a[0] && af[1..] == a[1..] + f;
      assert AllSpace(a[1..]) by {
        forall k | 0 <= k < |a[1..]| ensures IsSpace(a[1..][k]) { assert a[1..][k] == a[k + 1]; }
      }
      StripSpacePrefix(a[1..], f);
    }
  }

  /** Whitespace after a field does not survive `strip()`. */
  lemma {:induction false} StripSpaceSuffix(f: string, b: string)
    requires AllSpace(b)
    ensures Strip(f + b) == Strip(f)
    decreases |f| + |b|
  {
    var fb := f + b;
    if b == [] {
      assert fb == f;
    } else if f == [] {
      assert fb == b;
      StripEmptyIff(b);
    } else if IsSpace(f[0]) {
      assert fb[0] == f[0] && fb[1..] == f[1..] + b;
      StripSpaceSuffix(f[1..], b);
    } else {
      assert fb[0] == f[0];
      assert fb[|fb| - 1] == b[|b| - 1];
      assert fb[..|fb| - 1] == f + b[..|b| - 1];
      var b' := b[..|b| - 1];
      assert AllSpace(b') by {
        forall k | 0 <= k < |b'| ensures IsSpace(b'[k]) { assert b'[k] == b[k]; }
      }
      StripSpaceSuffix(f, b[..|b| - 1]);
    }
  }

  /** How many times `c` occurs in `s`. */
  function Occurrences(s: string, c: char): nat {
    if s == [] then 0 else (if s[0] == c then 1 else 0) + Occurrences(s[1..], c)
  }

  lemma {:induction false} OccurrencesConcat(a: string, b: string, c: char)
    ensures Occurrences(a + b, c) == Occurrences(a, c) + Occurrences(b, c)
  {
    if a == [] {
      assert a + b == b;
    } else {
      assert (a + b)[0] == a[0];
      assert (a + b)[1..] == a[1..] + b;
      OccurrencesConcat(a[1..], b, c);
    }
  }

  lemma {:induction false} OccurrencesAbsent(s: string, c: char)
    requires c !in s
    ensures Occurrences(s, c) == 0
  {
    if s != [] {
      assert s == [s[0]] + s[1..];
      OccurrencesAbsent(s[1..], c);
    }
  }

  /** `strip()` removes only whitespace, so it never removes a comma or other visible character. */
  lemma StripKeepsOccurrences(s: string, c: char)
    requires !IsSpace(c)
    ensures Occurrences(Strip(s), c) == Occurrences(s, c)
    ensures c in Strip(s) <==> c in s
  {
    var r := Strip(s);
    var pre, post := StripDecompose(s);
    assert c !in pre && c !in post;
    OccurrencesAbsent(pre, c);
    OccurrencesAbsent(post, c);
    OccurrencesConcat(pre + r, post, c);
    OccurrencesConcat(pre, r, c);
  }

  /**
    `s.split(sep)`: the pieces of `s` between occurrences of `sep`. Like
    Python's, it always returns at least one piece (`"".split(",") == [""]`).
   */
  function Split(s: string, sep: char): (r: seq<string>)
    ensures |r| == Occurrences(s, sep) + 1
    ensures forall k | 0 <= k < |r| :: sep !in r[k]
  {
    if s == [] then [[]]
    else
      var rest := Split(s[1..], sep);
      if s[0] == sep then [[]] + rest
      else [[s[0]] + rest[0]] + rest[1..]
  }

  /** `sep.join(fs)`. */
  function Join(fs: seq<string>, sep: char): string {
    if |fs| == 0 then []
    else if |fs| == 1 then fs[0]
    else fs[0] + [sep] + Join(fs[1..], sep)
  }

  lemma JoinExtendFirst(x: string, fs: seq<string>, sep: char)
    requires |fs| >= 1
    ensures Join([x + fs[0]] + fs[1..], sep) == x + Join(fs, sep)
  {
    var gs := [x + fs[0]] + fs[1..];
    assert gs[1..] == fs[1..];
  }

  /** Joining the pieces of a split with the same separator gives back the string. */
  lemma {:induction false} JoinSplit(s: string, sep: char)
    ensures Join(Split(s, sep), sep) == s
  {
    if s != [] {
      var rest := Split(s[1..], sep);
      JoinSplit(s[1..], sep);
      if s[0] == sep {
        var fs := [[]] + rest;
        assert fs[1..] == rest;
        assert Join(fs, sep) == [] + [sep] + Join(rest, sep);
        assert s == [sep] + s[1..];
      } else {
        JoinExtendFirst([s[0]], rest, sep);
        assert s == [s[0]] + s[1..];
      }
    }
  }

  lemma {:induction false} SplitWithout(a: string, sep: char)
    requires sep !in a
    ensures Split(a, sep) == [a]
  {
    if a != [] {
      assert a == [a[0]] + a[1..];
      SplitWithout(a[1..], sep);
      assert a == [a[0]] + a[1..];
    }
  }

  /** A separator-free prefix lands in the first piece. */
  lemma {:induction false} SplitPrefix(a: string, b: string, sep: char)
    requires sep !in a
    ensures Split(a + b, sep) == [a + Split(b, sep)[0]] + Split(b, sep)[1..]
  {
    if a == [] {
      assert a + b == b;
      var r := Split(b, sep);
      assert a + r[0] == r[0];
      assert [a + r[0]] + r[1..] == r;
    } else {
      var ab := a + b;
      assert ab[0] == a[0] && ab[1..] == a[1..] + b;
      assert a == [a[0]] + a[1..];
      SplitPrefix(a[1..], b, sep);
      assert [a[0]] + (a[1..] + Split(b, sep)[0]) == a + Split(b, sep)[0];
    }
  }

  /** How `split` treats the first character of a string. */
  lemma SplitCons(x: char, t: string, sep: char)
    ensures Split([x] + t, sep) ==
      if x == sep then [[]] + Split(t, sep) else [[x] + Split(t, sep)[0]] + Split(t, sep)[1..]
  {
    assert ([x] + t)[0] == x && ([x] + t)[1..] == t;
  }

  /** A separator-free suffix lands in the last piece. */
  lemma {:induction false} SplitSuffix(a: string, b: string, sep: char)
    requires sep !in b
    ensures var r := Split(a, sep);
      Split(a + b, sep) == r[..|r| - 1] + [r[|r| - 1] + b]
  {
    if a == [] {
      assert a + b == b;
      SplitWithout(b, sep);
    } else {
      assert a == [a[0]] + a[1..];
      assert a + b == [a[0]] + (a[1..] + b);
      SplitSuffix(a[1..], b, sep);
      SplitCons(a[0], a[1..], sep);
      SplitCons(a[0], a[1..] + b, sep);
      if a[0] != sep {
        SplitSuffixStep(a[0], Split(a[1..], sep), b);
      }
    }
  }

  lemma SplitSuffixStep(x: char, r': seq<string>, b: string)
    requires |r'| >= 1
    ensures var rest := r'[..|r'| - 1] + [r'[|r'| - 1] + b];
      var r := [[x] + r'[0]] + r'[1..];
      [[x] + rest[0]] + rest[1..] == r[..|r| - 1] + [r[|r| - 1] + b]
  {
    if |r'| == 1 {
      assert [x] + (r'[0] + b) == ([x] + r'[0]) + b;
    } else {
      var rest := r'[..|r'| - 1] + [r'[|r'| - 1] + b];
      var r := [[x] + r'[0]] + r'[1..];
      assert rest[0] == r'[0];
      assert rest[1..] == r'[1..|r'| - 1] + [r'[|r'| - 1] + b];
      assert r[..|r| - 1] == [[x] + r'[0]] + r'[1..|r'| - 1];
    }
  }

  /** Splitting a join of separator-free pieces gives back the pieces. */
  lemma {:induction false} SplitJoin(fs: seq<string>, sep: char)
    requires |fs| >= 1
    requires forall k | 0 <= k < |fs| :: sep !in fs[k]
    ensures Split(Join(fs, sep), sep) == fs
  {
    if |fs| == 1 {
      SplitWithout(fs[0], sep);
    } else {
      SplitJoin(fs[1..], sep);
      var tail := Join(fs[1..], sep);
      SplitPrefix(fs[0], [sep] + tail, sep);
      assert ([sep] + tail)[0] == sep && ([sep] + tail)[1..] == tail;
      assert Split([sep] + tail, sep) == [[]] + fs[1..];
      assert Join(fs, sep) == fs[0] + ([sep] + tail);
      assert fs[0] + [] == fs[0];
      assert fs == [fs[0]] + fs[1..];
    }
  }

  /** `[f.strip() for f in fs]`. */
  function StripEach(fs: seq<string>): (r: seq<string>)
    ensures |r| == |fs|
    ensures forall k | 0 <= k < |r| :: r[k] == Strip(fs[k])
  {
    seq(|fs|, k requires 0 <= k < |fs| => Strip(fs[k]))
  }

  predicate IsDigit(c: char) {
    '0' <= c && c <= '9'
  }

  predicate AllDigits(s: string) {
    forall k | 0 <= k < |s| :: IsDigit(s[k])
  }

  function DigitChar(d: nat): (c: char)
    requires d < 10
    ensures IsDigit(c)
  {
    "0123456789"[d]
  }

  function DigitValue(c: char): nat
    requires IsDigit(c)
  {
    c as int - '0' as int
  }

  /** The decimal digits of a natural number, most significant first, without leading zeros. */
  function Digits(n: nat): (r: string)
    ensures r != [] && AllDigits(r)
    ensures r[0] == '0' <==> n == 0
  {
    if n < 10 then [DigitChar(n)] else Digits(n / 10) + [DigitChar(n % 10)]
  }

  /** `str(n)` for a Python int: a minus sign for negative numbers, then the digits of the magnitude. */
  function Decimal(n: int): (r: string)
    ensures n >= 0 ==> r == Digits(n)
    ensures n < 0 ==> r == "-" + Digits(-n)
  {
    if n < 0 then "-" + Digits(-n) else Digits(n)
  }

  /** The number a string of decimal digits denotes. */
  function DigitsValue(s: string): nat
    requires AllDigits(s)
  {
    if s == [] then 0 else DigitsValue(s[..|s| - 1]) * 10 + DigitValue(s[|s| - 1])
  }

  /** Reads an optionally signed decimal integer; the inverse of `Decimal`. */
  function ParseInt(s: string): Option<int> {
    if s == [] then None
    else if s[0] == '-' then
      if |s| > 1 && AllDigits(s[1..]) then
        var magnitude: int := DigitsValue(s[1..]);
        Some(-magnitude)
      else None
    else if AllDigits(s) then Some(DigitsValue(s))
    else None
  }

  lemma {:induction false} DigitsValueOfDigits(n: nat)
    ensures DigitsValue(Digits(n)) == n
  {
    var d := Digits(n);
    if n < 10 {
      assert d[..0] == [];
      assert "0123456789"[n] as int - '0' as int == n;
    } else {
      assert d[..|d| - 1] == Digits(n / 10);
      DigitsValueOfDigits(n / 10);
      assert "0123456789"[n % 10] as int - '0' as int == n % 10;
    }
  }

  /** `str` of an int can be read back: no two ints print alike. */
  lemma DecimalRoundTrip(n: int)
    ensures ParseInt(Decimal(n)) == Some(n)
  {
    if n < 0 {
      NegativeRoundTrip(n);
    } else {
      UnsignedRoundTrip(n);
    }
  }

  lemma UnsignedRoundTrip(n: int)
    requires n >= 0
    ensures ParseInt(Decimal(n)) == Some(n)
  {
    assert Decimal(n) == Digits(n);
    DigitsValueOfDigits(n);
    ParseUnsigned(Digits(n));
  }

  lemma NegativeRoundTrip(n: int)
    requires n < 0
    ensures ParseInt(Decimal(n)) == Some(n)
  {
    var m: nat := -n;
    var d := Digits(m);
    DigitsValueOfDigits(m);
    ParseNegative(d);
    assert Decimal(n) == "-" + d;
  }

  lemma ParseUnsigned(d: string)
    requires d != [] && AllDigits(d)
    ensures ParseInt(d) == Some(DigitsValue(d))
  {
    assert !IsDigit('-');
  }

  lemma ParseNegative(d: string)
    requires d != [] && AllDigits(d)
    ensures ParseInt("-" + d) == Some(-(DigitsValue(d) as int))
  {
    assert ("-" + d)[1..] == d;
  }

  lemma DecimalInjective(a: int, b: int)
    requires Decimal(a) == Decimal(b)
    ensures a == b
  {
    DecimalRoundTrip(a);
    DecimalRoundTrip(b);
  }

  /**
    A run of digits ends where the first non-digit starts, so a digit run
    followed by a non-digit can be split off a string in only one way.
   */
  lemma DigitRunUnique(d1: string, r1: string, d2: string, r2: string)
    requires AllDigits(d1) && AllDigits(d2)
    requires r1 != [] && r2 != [] && !IsDigit(r1[0]) && !IsDigit(r2[0])
    requires d1 + r1 == d2 + r2
    ensures d1 == d2 && r1 == r2
  {
    var s := d1 + r1;
    assert d1 == s[..|d1|] && d2 == s[..|d2|];
    assert r1 == s[|d1|..] && r2 == s[|d2|..];
  }

  /**
    A number printed in front of text that does not start with a digit can be
    read off again: both the number and the text after it are determined.
   */
  lemma NumberPrefixDetermine(n1: nat, r1: string, n2: nat, r2: string)
    requires r1 != [] && r2 != [] && !IsDigit(r1[0]) && !IsDigit(r2[0])
    requires Digits(n1) + r1 == Digits(n2) + r2
    ensures n1 == n2 && r1 == r2
  {
    DigitRunUnique(Digits(n1), r1, Digits(n2), r2);
    DecimalInjective(n1, n2);
  }

  /** Two strings with the same prefix are equal exactly when what follows it is. */
  lemma CancelPrefix(p: string, a: string, b: string)
    requires p + a == p + b
    ensures a == b
  {
    assert a == (p + a)[|p|..];
    assert b == (p + b)[|p|..];
  }
}
