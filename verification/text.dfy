/** Decimal rendering of the numbers that appear in an order message, and the parsers
    that read them back. Quantities are rendered as JavaScript renders an integer
    (`${n}`); money is integer cents rendered as `toFixed(2)` renders the amount in
    reais, with exactly two decimals. */
module Text {
  import opened Wrappers

  predicate IsDigit(c: char)
  {
    '0' <= c <= '9'
  }

  predicate AllDigits(s: string)
  {
    forall i :: 0 <= i < |s| ==> IsDigit(s[i])
  }

  function DigitChar(d: nat): (c: char)
    requires d < 10
    ensures IsDigit(c) && c as int - '0' as int == d
  {
    (d + '0' as int) as char
  }

  function DigitValue(c: char): (d: nat)
    requires IsDigit(c)
    ensures d < 10 && DigitChar(d) == c
  {
    c as int - '0' as int
  }

  /** The decimal digits of `n`, most significant first, without leading zeros. */
  function NatToString(n: nat): (s: string)
    ensures |s| >= 1 && AllDigits(s)
    ensures |s| > 1 ==> s[0] != '0'
  {
    if n < 10 then [DigitChar(n)] else NatToString(n / 10) + [DigitChar(n % 10)]
  }

  /** The value of a string of decimal digits. */
  function DigitsValue(s: string): nat
    requires AllDigits(s)
  {
    if s == [] then 0 else 10 * DigitsValue(s[..|s| - 1]) + DigitValue(s[|s| - 1])
  }

  function ParseNat(s: string): (r: Option<nat>)
    ensures r.Some? <==> |s| >= 1 && AllDigits(s)
  {
    if |s| >= 1 && AllDigits(s) then Some(DigitsValue(s)) else None
  }

  lemma {:induction false} NatRoundTrip(n: nat)
    ensures ParseNat(NatToString(n)) == Some(n)
  {
    var s := NatToString(n);
    if n >= 10 {
      NatRoundTrip(n / 10);
      assert s[..|s| - 1] == NatToString(n / 10);
      assert DigitsValue(s) == 10 * (n / 10) + n % 10;
    } else {
      assert s[..0] == [];
      assert DigitsValue(s) == n;
    }
  }

  /** `${n}` for an integer `n`. */
  function IntToString(n: int): (s: string)
    ensures |s| >= 1
    ensures forall i :: 0 <= i < |s| ==> IsDigit(s[i]) || (i == 0 && s[i] == '-')
  {
    if n < 0 then "-" + NatToString(-n) else NatToString(n)
  }

  function ParseInt(s: string): (r: Option<int>)
  {
    if |s| >= 1 && s[0] == '-' then
      var m :- ParseNat(s[1..]);
      Some(0 - m)
    else
      var m :- ParseNat(s);
      Some(m)
  }

  lemma IntRoundTrip(n: int)
    ensures ParseInt(IntToString(n)) == Some(n)
  {
    if n < 0 {
      NatRoundTrip(-n);
      assert IntToString(n)[1..] == NatToString(-n);
    } else {
      NatRoundTrip(n);
    }
  }

  /** `(cents / 100).toFixed(2)` for an exact amount of cents: the sign, the whole
      reais, a point and exactly two digits of cents. */
  function FormatCents(cents: int): (s: string)
    ensures |s| >= 4 && s[|s| - 3] == '.'
    ensures forall i :: 0 <= i < |s| ==> IsDigit(s[i]) || s[i] == '.' || (i == 0 && s[i] == '-')
    ensures IsDigit(s[|s| - 2]) && IsDigit(s[|s| - 1])
  {
    var a: nat := if cents < 0 then -cents else cents;
    (if cents < 0 then "-" else "") + NatToString(a / 100) + "." + [DigitChar(a % 100 / 10), DigitChar(a % 10)]
  }

  /** The rest of the `toFixed(2)` shape: the point is the only one, a minus sign
      appears exactly for a negative amount, and the whole part is non-empty with no
      leading zero. */
  lemma FormatCentsShape(cents: int)
    ensures var s := FormatCents(cents);
      && (forall i :: 0 <= i < |s| && i != |s| - 3 ==> s[i] != '.')
      && (s[0] == '-' <==> cents < 0)
      && var w := if cents < 0 then 1 else 0;
         w < |s| - 3 && (|s| - 3 - w > 1 ==> s[w] != '0')
  {
  }

  /** Reads back an amount written by `FormatCents`. */
  function ParseCents(s: string): (r: Option<int>)
  {
    if |s| < 4 || s[|s| - 3] != '.' || !IsDigit(s[|s| - 2]) || !IsDigit(s[|s| - 1]) then None
    else
      var whole :- ParseInt(s[..|s| - 3]);
      var frac := 10 * DigitValue(s[|s| - 2]) + DigitValue(s[|s| - 1]);
      if |s| >= 1 && s[0] == '-' then Some(100 * whole - frac) else Some(100 * whole + frac)
  }

  lemma CentsRoundTrip(cents: int)
    ensures ParseCents(FormatCents(cents)) == Some(cents)
  {
    var a: nat := if cents < 0 then -cents else cents;
    var w := (if cents < 0 then "-" else "") + NatToString(a / 100);
    var d1, d2 := DigitChar(a % 100 / 10), DigitChar(a % 10);
    assert FormatCents(cents) == w + "." + [d1, d2];
    WholeRoundTrip(cents < 0, a / 100);
    ParseCentsOf(w, d1, d2);
    CentsDigits(a);
    assert 10 * DigitValue(d1) + DigitValue(d2) == a % 100;
    assert w[0] == '-' <==> cents < 0;
  }

  /** An amount is its whole part times 100 plus its two cent digits. */
  lemma CentsDigits(a: nat)
    ensures 10 * (a % 100 / 10) + a % 10 == a % 100
    ensures 100 * (a / 100) + a % 100 == a
  {
    var q, r := a / 100, a % 100;
    assert a == 100 * q + r;
    assert r == 10 * (r / 10) + r % 10;
    LastDigit(a, 10 * q + r / 10, r % 10);
  }

  lemma LastDigit(x: int, k: int, m: int)
    requires x == 10 * k + m && 0 <= m < 10
    ensures x % 10 == m
  {
  }

  /** Reading an amount: the whole part, then two digits of cents, which add to the
      whole part's magnitude with its sign. */
  lemma ParseCentsOf(w: string, d1: char, d2: char)
    requires IsDigit(d1) && IsDigit(d2) && |w| >= 1
    ensures ParseCents(w + "." + [d1, d2]) ==
      match ParseInt(w)
      case None => None
      case Some(whole) =>
        var frac := 10 * DigitValue(d1) + DigitValue(d2);
        Some(if w[0] == '-' then 100 * whole - frac else 100 * whole + frac)
  {
    var s := w + "." + [d1, d2];
    assert s[..|s| - 3] == w;
    assert s[|s| - 3] == '.' && s[|s| - 2] == d1 && s[|s| - 1] == d2;
    assert s[0] == w[0];
  }

  /** The whole-reais part of a rendered amount reads back, sign included. */
  lemma WholeRoundTrip(negative: bool, whole: nat)
    ensures var v: int := if negative then -(whole as int) else whole as int;
      ParseInt((if negative then "-" else "") + NatToString(whole)) == Some(v)
  {
    NatRoundTrip(whole);
    var w := (if negative then "-" else "") + NatToString(whole);
    if negative {
      assert w[1..] == NatToString(whole);
    } else {
      assert w == NatToString(whole);
    }
  }

  /** `parts.join(sep)`. */
  function Join(parts: seq<string>, sep: string): string
  {
    if |parts| == 0 then ""
    else if |parts| == 1 then parts[0]
    else parts[0] + sep + Join(parts[1..], sep)
  }

  /** A join of no parts is empty; otherwise it starts with the first part and ends
      with the last. */
  lemma {:induction false} JoinEnds(parts: seq<string>, sep: string)
    ensures |parts| == 0 ==> Join(parts, sep) == ""
    ensures |parts| >= 1 ==> parts[0] <= Join(parts, sep)
    ensures |parts| >= 1 ==>
      var s, last := Join(parts, sep), parts[|parts| - 1];
      |last| <= |s| && s[|s| - |last|..] == last
  {
    if |parts| >= 2 {
      var rest := Join(parts[1..], sep);
      JoinEnds(parts[1..], sep);
      var last := parts[|parts| - 1];
      assert parts[1..][|parts[1..]| - 1] == last;
      var s := parts[0] + sep + rest;
      assert s[..|parts[0]|] == parts[0];
      assert s[|s| - |last|..] == rest[|rest| - |last|..];
    }
  }

  /** The first position at which `sep` occurs in `s`. */
  function FirstIndex(s: string, sep: string): (r: Option<nat>)
    requires |sep| > 0
    ensures r.Some? ==> r.value + |sep| <= |s| && s[r.value..r.value + |sep|] == sep
  {
    if |s| < |sep| then None
    else if s[..|sep|] == sep then Some(0)
    else
      match FirstIndex(s[1..], sep)
      case None => None
      case Some(k) => Some(k + 1)
  }

  /** `s.split(sep)` for a non-empty separator. */
  function Split(s: string, sep: string): (parts: seq<string>)
    requires |sep| > 0
    ensures |parts| >= 1
    decreases |s|
  {
    match FirstIndex(s, sep)
    case None => [s]
    case Some(k) => [s[..k]] + Split(s[k + |sep|..], sep)
  }

  lemma {:induction false} FirstIndexAfter(a: string, sep: string, b: string)
    requires |sep| > 0 && sep[0] !in a
    ensures FirstIndex(a + sep + b, sep) == Some(|a|)
  {
    if a != [] {
      assert (a + sep + b)[1..] == a[1..] + sep + b;
      FirstIndexAfter(a[1..], sep, b);
    }
  }

  lemma {:induction false} FirstIndexNone(a: string, sep: string)
    requires |sep| > 0 && sep[0] !in a
    ensures FirstIndex(a, sep) == None
  {
    if |a| >= |sep| {
      assert a[..|sep|][0] == a[0];
      FirstIndexNone(a[1..], sep);
    }
  }

  /** Splitting undoes joining when the separator's first character occurs in no part. */
  lemma {:induction false} SplitJoin(parts: seq<string>, sep: string)
    requires |parts| >= 1 && |sep| > 0
    requires forall i :: 0 <= i < |parts| ==> sep[0] !in parts[i]
    ensures Split(Join(parts, sep), sep) == parts
  {
    if |parts| == 1 {
      FirstIndexNone(parts[0], sep);
    } else {
      var rest := Join(parts[1..], sep);
      FirstIndexAfter(parts[0], sep, rest);
      var s := parts[0] + sep + rest;
      assert s[..|parts[0]|] == parts[0];
      assert s[|parts[0]| + |sep|..] == rest;
      SplitJoin(parts[1..], sep);
    }
  }

  /** Splits `s` at the last occurrence of `c`. */
  function SplitAtLast(s: string, c: char): (r: Option<(string, string)>)
    ensures r.Some? ==> s == r.value.0 + [c] + r.value.1 && c !in r.value.1
    ensures r.None? ==> c !in s
  {
    if s == [] then None
    else if s[|s| - 1] == c then Some((s[..|s| - 1], []))
    else
      match SplitAtLast(s[..|s| - 1], c)
      case None => None
      case Some((a, b)) => Some((a, b + [s[|s| - 1]]))
  }

  lemma {:induction false} SplitAtLastOf(a: string, c: char, b: string)
    requires c !in b
    ensures SplitAtLast(a + [c] + b, c) == Some((a, b))
  {
    var s := a + [c] + b;
    if b != [] {
      assert s[..|s| - 1] == a + [c] + b[..|b| - 1];
      SplitAtLastOf(a, c, b[..|b| - 1]);
      assert b[..|b| - 1] + [s[|s| - 1]] == b;
    } else {
      assert s[..|s| - 1] == a;
    }
  }

  function StripPrefix(s: string, prefix: string): (r: Option<string>)
    ensures r.Some? <==> |prefix| <= |s| && s[..|prefix|] == prefix
    ensures r.Some? ==> s == prefix + r.value
  {
    if |prefix| <= |s| && s[..|prefix|] == prefix then Some(s[|prefix|..]) else None
  }

  function StripSuffix(s: string, suffix: string): (r: Option<string>)
    ensures r.Some? <==> |suffix| <= |s| && s[|s| - |suffix|..] == suffix
    ensures r.Some? ==> s == r.value + suffix
  {
    if |suffix| <= |s| && s[|s| - |suffix|..] == suffix then Some(s[..|s| - |suffix|]) else None
  }
}
