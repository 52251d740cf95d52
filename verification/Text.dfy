/** Strings as the firmware and the bridge use them: fields separated by one character,
    decimal numerals, trimming. */
module Text {

  const NEWLINE: char := '\n'

  // ---------- Separated fields ----------

  /** The pieces of `s` between occurrences of `sep`, as Rust's `str::split` yields them:
      always at least one piece, possibly empty ones. */
  function Split(s: string, sep: char): (parts: seq<string>)
    ensures |parts| >= 1
    ensures forall i :: 0 <= i < |parts| ==> sep !in parts[i]
  {
    if s == "" then [""]
    else if s[0] == sep then [""] + Split(s[1..], sep)
    else
      var rest := Split(s[1..], sep);
      [[s[0]] + rest[0]] + rest[1..]
  }

  function Join(parts: seq<string>, sep: char): string
    requires |parts| >= 1
  {
    if |parts| == 1 then parts[0] else parts[0] + [sep] + Join(parts[1..], sep)
  }

  lemma {:induction false} JoinOfSplit(s: string, sep: char)
    ensures Join(Split(s, sep), sep) == s
  {
    if s == "" {
    } else {
      var rest := Split(s[1..], sep);
      JoinOfSplit(s[1..], sep);
      if s[0] == sep {
        assert ([""] + rest)[1..] == rest;
      } else {
        assert ([[s[0]] + rest[0]] + rest[1..])[1..] == rest[1..];
      }
      assert s == [s[0]] + s[1..];
    }
  }

  lemma {:induction false} SplitFirst(a: string, rest: string, sep: char)
    requires sep !in a
    ensures Split(a + [sep] + rest, sep) == [a] + Split(rest, sep)
  {
    var s := a + [sep] + rest;
    if a == "" {
      assert s[1..] == rest;
    } else {
      assert s[1..] == a[1..] + [sep] + rest;
      SplitFirst(a[1..], rest, sep);
      assert a == [a[0]] + a[1..];
      assert ([a[1..]] + Split(rest, sep))[1..] == Split(rest, sep);
    }
  }

  lemma {:induction false} SplitWhole(a: string, sep: char)
    requires sep !in a
    ensures Split(a, sep) == [a]
  {
    if a != "" {
      SplitWhole(a[1..], sep);
      assert a == [a[0]] + a[1..];
    }
  }

  /** Splitting undoes joining when no field contains the separator. */
  lemma {:induction false} SplitOfJoin(parts: seq<string>, sep: char)
    requires |parts| >= 1
    requires forall i :: 0 <= i < |parts| ==> sep !in parts[i]
    ensures Split(Join(parts, sep), sep) == parts
  {
    if |parts| == 1 {
      SplitWhole(parts[0], sep);
    } else {
      SplitFirst(parts[0], Join(parts[1..], sep), sep);
      SplitOfJoin(parts[1..], sep);
    }
  }

  /** A leading field without the separator is determined by the whole string. */
  lemma PeelLeft(a: string, r: string, a': string, r': string, sep: char)
    requires sep !in a && sep !in a'
    requires a + [sep] + r == a' + [sep] + r'
    ensures a == a' && r == r'
  {
    SplitFirst(a, r, sep);
    SplitFirst(a', r', sep);
    assert a == ([a] + Split(r, sep))[0] == ([a'] + Split(r', sep))[0] == a';
    assert r == (a + [sep] + r)[|a| + 1..];
    assert r' == (a' + [sep] + r')[|a| + 1..];
  }

  /** A trailing field without the separator is determined by the whole string. */
  lemma PeelRight(r: string, a: string, r': string, a': string, sep: char)
    requires sep !in a && sep !in a'
    requires r + [sep] + a == r' + [sep] + a'
    ensures r == r' && a == a'
  {
    LastSeparator(r, a, sep);
    LastSeparator(r', a', sep);
    var s := r + [sep] + a;
    assert |r| == |r'|;
    assert r == s[..|r|] && r' == s[..|r|];
    assert a == s[|r| + 1..] && a' == s[|r| + 1..];
  }

  lemma LastSeparator(r: string, a: string, sep: char)
    requires sep !in a
    ensures var s := r + [sep] + a;
      s[|r|] == sep && forall j :: |r| < j < |s| ==> s[j] != sep
  {
    var s := r + [sep] + a;
    forall j | |r| < j < |s| ensures s[j] != sep {
      assert s[j] == a[j - |r| - 1];
    }
  }

  // ---------- Decimal numerals ----------

  predicate IsDigit(c: char) {
    '0' <= c <= '9'
  }

  predicate AllDigits(s: string) {
    forall i :: 0 <= i < |s| ==> IsDigit(s[i])
  }

  function Digit(n: nat): (c: char)
    requires n < 10
    ensures IsDigit(c)
  {
    ('0' as int + n) as char
  }

  function DigitValue(c: char): nat
    requires IsDigit(c)
  {
    c as int - '0' as int
  }

  /** The decimal numeral of `n`, without leading zeros. */
  function DecimalNat(n: nat): (s: string)
    ensures |s| >= 1 && AllDigits(s)
  {
    if n < 10 then [Digit(n)] else DecimalNat(n / 10) + [Digit(n % 10)]
  }

  function DecimalInt(n: int): string {
    if n < 0 then "-" + DecimalNat(-n) else DecimalNat(n)
  }

  /** The value of a string of digits; leading zeros are allowed. */
  function NumeralValue(s: string): nat
    requires AllDigits(s)
  {
    if s == "" then 0
    else 10 * NumeralValue(s[..|s| - 1]) + DigitValue(s[|s| - 1])
  }

  lemma {:induction false} NumeralOfDecimal(n: nat)
    ensures NumeralValue(DecimalNat(n)) == n
  {
    var s := DecimalNat(n);
    if n < 10 {
      assert s[..0] == "";
    } else {
      NumeralOfDecimal(n / 10);
      assert s[..|s| - 1] == DecimalNat(n / 10);
    }
  }

  /** One more digit at the end of a numeral; no numeral but zero starts with a zero. */
  lemma DecimalDigits(n: nat, d: nat)
    requires d < 10
    ensures DecimalNat(10 * n + d) == (if n == 0 then "" else DecimalNat(n)) + ["0123456789"[d]]
    ensures DigitValue("0123456789"[d]) == d
  {
  }

  function PowerOfTen(k: nat): nat {
    if k == 0 then 1 else 10 * PowerOfTen(k - 1)
  }

  lemma {:induction false} DecimalLength(n: nat, width: nat)
    requires width >= 1 && n < PowerOfTen(width)
    ensures |DecimalNat(n)| <= width
  {
    if n >= 10 {
      DecimalLength(n / 10, width - 1);
    }
  }

  lemma DecimalIntIsInjective(m: int, n: int)
    requires DecimalInt(m) == DecimalInt(n)
    ensures m == n
  {
    NumeralOfDecimal(if m < 0 then -m else m);
    NumeralOfDecimal(if n < 0 then -n else n);
    if m < 0 {
      assert DecimalInt(m)[0] == '-';
      assert !IsDigit(DecimalInt(n)[0]);
      assert DecimalInt(m)[1..] == DecimalNat(-m) && DecimalInt(n)[1..] == DecimalNat(-n);
    } else {
      assert IsDigit(DecimalInt(m)[0]);
      assert n >= 0;
    }
  }

  lemma DecimalIntHasNoSeparator(n: int, sep: char)
    requires !IsDigit(sep) && sep != '-'
    ensures sep !in DecimalInt(n)
  {
    var d := DecimalNat(if n < 0 then -n else n);
    assert sep !in d;
    assert forall c :: c in DecimalInt(n) ==> c == '-' || c in d;
  }

  function Zeros(n: int): (s: string)
    ensures AllDigits(s)
  {
    if n <= 0 then "" else Zeros(n - 1) + "0"
  }

  function PaddedNat(n: nat, width: int): (s: string)
    ensures AllDigits(s)
  {
    Zeros(width - |DecimalNat(n)|) + DecimalNat(n)
  }

  /** Zero-padded to at least `width` characters, sign first, as `{:0width}` prints. */
  function ZeroPadded(n: int, width: nat): string {
    if n < 0 then "-" + PaddedNat(-n, width - 1) else PaddedNat(n, width)
  }

  lemma {:induction false} NumeralIgnoresZeros(k: int, s: string)
    requires AllDigits(s)
    ensures NumeralValue(Zeros(k) + s) == NumeralValue(s)
    decreases |s|, if k < 0 then 0 else k
  {
    var z := Zeros(k);
    if s != "" {
      NumeralIgnoresZeros(k, s[..|s| - 1]);
      assert (z + s)[..|z + s| - 1] == z + s[..|s| - 1];
    } else if k > 0 {
      NumeralIgnoresZeros(k - 1, "");
      assert z + s == z;
      assert z[..|z| - 1] == Zeros(k - 1) + "";
    }
  }

  lemma PaddedNatIsInjective(m: nat, n: nat, width: int)
    requires PaddedNat(m, width) == PaddedNat(n, width)
    ensures m == n
  {
    hide NumeralValue, DecimalNat, Zeros;
    NumeralIgnoresZeros(width - |DecimalNat(m)|, DecimalNat(m));
    NumeralIgnoresZeros(width - |DecimalNat(n)|, DecimalNat(n));
    NumeralOfDecimal(m);
    NumeralOfDecimal(n);
  }

  lemma ZeroPaddedIsInjective(m: int, n: int, width: nat)
    requires ZeroPadded(m, width) == ZeroPadded(n, width)
    ensures m == n
  {
    hide NumeralValue, DecimalNat, Zeros, PaddedNat;
    var p, q := ZeroPadded(m, width), ZeroPadded(n, width);
    assert m < 0 ==> p[0] == '-' && p[1..] == PaddedNat(-m, width - 1);
    assert n < 0 ==> q[0] == '-' && q[1..] == PaddedNat(-n, width - 1);
    assert (m < 0) == (n < 0);
    if m < 0 {
      PaddedNatIsInjective(-m, -n, width - 1);
    } else {
      PaddedNatIsInjective(m, n, width);
    }
  }

  // ---------- Trimming ----------

  /** Unicode White_Space, the set that `str::trim` removes. */
  predicate IsWhitespace(c: char) {
    var n := c as int;
    || 9 <= n <= 13 || n == 0x20 || n == 0x85 || n == 0xA0 || n == 0x1680
    || 0x2000 <= n <= 0x200A || n == 0x2028 || n == 0x2029 || n == 0x202F || n == 0x205F || n == 0x3000
  }

  function TrimStart(s: string): string {
    if s != "" && IsWhitespace(s[0]) then TrimStart(s[1..]) else s
  }

  function TrimEnd(s: string): string {
    if s != "" && IsWhitespace(s[|s| - 1]) then TrimEnd(s[..|s| - 1]) else s
  }

  function Trim(s: string): string {
    TrimEnd(TrimStart(s))
  }

  predicate AllWhitespace(s: string) {
    forall i :: 0 <= i < |s| ==> IsWhitespace(s[i])
  }

  /** Trimming removes whitespace at both ends, all of it, and nothing else. */
  lemma TrimIsExact(s: string) returns (before: string, after: string)
    ensures s == before + Trim(s) + after && AllWhitespace(before) && AllWhitespace(after)
    ensures Trim(s) != "" ==> !IsWhitespace(Trim(s)[0]) && !IsWhitespace(Trim(s)[|Trim(s)| - 1])
  {
    before := TrimStartIsExact(s);
    after := TrimEndIsExact(TrimStart(s));
    assert s == before + (Trim(s) + after);
  }

  lemma {:induction false} TrimStartIsExact(s: string) returns (before: string)
    ensures s == before + TrimStart(s) && AllWhitespace(before)
    ensures TrimStart(s) != "" ==> !IsWhitespace(TrimStart(s)[0])
  {
    if s != "" && IsWhitespace(s[0]) {
      var rest := TrimStartIsExact(s[1..]);
      before := [s[0]] + rest;
      assert s == [s[0]] + s[1..];
    } else {
      before := "";
    }
  }

  lemma {:induction false} TrimEndIsExact(s: string) returns (after: string)
    ensures s == TrimEnd(s) + after && AllWhitespace(after)
    ensures TrimEnd(s) != "" ==> TrimEnd(s)[0] == s[0] && !IsWhitespace(TrimEnd(s)[|TrimEnd(s)| - 1])
  {
    if s != "" && IsWhitespace(s[|s| - 1]) {
      var rest := TrimEndIsExact(s[..|s| - 1]);
      after := rest + [s[|s| - 1]];
      assert s == s[..|s| - 1] + [s[|s| - 1]];
    } else {
      after := "";
    }
  }

  /** The 25 characters that count as whitespace, by code. */
  lemma WhitespaceCodes(c: char)
    ensures IsWhitespace(c) <==> c as int in {
      0x9, 0xA, 0xB, 0xC, 0xD, 0x20, 0x85, 0xA0, 0x1680, 0x2000, 0x2001, 0x2002, 0x2003, 0x2004, 0x2005, 0x2006,
      0x2007, 0x2008, 0x2009, 0x200A, 0x2028, 0x2029, 0x202F, 0x205F, 0x3000}
  {
  }

  /** Trimming strips exactly the whitespace put around a text. */
  lemma {:induction false} TrimOfPadded(before: string, t: string, after: string)
    requires AllWhitespace(before) && AllWhitespace(after)
    requires t != "" && !IsWhitespace(t[0]) && !IsWhitespace(t[|t| - 1])
    ensures Trim(before + t + after) == t
    decreases |before|
  {
    if before == "" {
      assert before + t + after == t + after;
      TrimEndOfPadded(t, after);
    } else {
      assert (before + t + after)[1..] == before[1..] + t + after;
      TrimOfPadded(before[1..], t, after);
    }
  }

  lemma {:induction false} TrimEndOfPadded(t: string, after: string)
    requires AllWhitespace(after) && t != "" && !IsWhitespace(t[|t| - 1])
    ensures TrimEnd(t + after) == t
    decreases |after|
  {
    if after == "" {
      assert t + after == t;
    } else {
      assert (t + after)[..|t + after| - 1] == t + after[..|after| - 1];
      TrimEndOfPadded(t, after[..|after| - 1]);
    }
  }

  lemma TrimKeeps(s: string)
    requires s != "" && !IsWhitespace(s[0]) && !IsWhitespace(s[|s| - 1])
    ensures Trim(s) == s
  {
  }
}
