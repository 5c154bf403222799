/** Integers as text: `strconv.ParseInt` in base 10, and how the order of texts relates to the order
    of the integers they stand for. */
module Numerals {
  import opened Options
  import opened Text

  predicate Digits(s: string) {
    forall i | 0 <= i < |s| :: '0' <= s[i] <= '9'
  }

  function Pow10(n: nat): nat {
    if n == 0 then 1 else 10 * Pow10(n - 1)
  }

  function Digit(c: char): nat
    requires '0' <= c <= '9'
  {
    c as int - '0' as int
  }

  /** d times p. */
  function Scale(d: nat, p: nat): nat {
    if d == 0 then 0 else p + Scale(d - 1, p)
  }

  lemma {:induction false} ScaleGrows(d: nat, e: nat, p: nat)
    requires d < e
    ensures Scale(d, p) + p <= Scale(e, p)
    decreases e
  {
    if d < e - 1 { ScaleGrows(d, e - 1, p); }
  }

  lemma ScaleTen(p: nat)
    ensures Scale(10, p) == 10 * p
  {
    assert Scale(1, p) == p;
    assert Scale(2, p) == 2 * p;
    assert Scale(4, p) == 4 * p;
    assert Scale(6, p) == 6 * p;
    assert Scale(8, p) == 8 * p;
  }

  function Value(s: string): nat
    requires Digits(s)
  {
    if s == "" then 0 else Scale(Digit(s[0]), Pow10(|s| - 1)) + Value(s[1..])
  }

  predicate Negative(s: string) {
    s != "" && s[0] == '-'
  }

  /** A numeral without its sign. */
  function Body(s: string): string {
    if s != "" && (s[0] == '-' || s[0] == '+') then s[1..] else s
  }

  /** `strconv.ParseInt(s, 10, 64)`. */
  function ParseInt(s: string): Option<int> {
    var body := Body(s);
    if body == "" || !Digits(body) then None
    else
      var n: int := if Negative(s) then 0 - Value(body) else Value(body);
      if -0x8000_0000_0000_0000 <= n < 0x8000_0000_0000_0000 then Some(n) else None
  }

  /** A numeral without sign or leading zeros, short enough for 64 bits. */
  predicate Canonical(s: string) {
    s != "" && Digits(s) && (|s| == 1 || s[0] != '0') && |s| <= 18
  }

  lemma {:induction false} PowGrows(m: nat, n: nat)
    requires m <= n
    ensures Pow10(m) <= Pow10(n)
  {
    if m < n { PowGrows(m, n - 1); }
  }

  lemma {:induction false} ValueBound(s: string)
    requires Digits(s)
    ensures Value(s) < Pow10(|s|)
  {
    if s != "" {
      ValueBound(s[1..]);
      DigitBound(Digit(s[0]), Pow10(|s| - 1), Value(s[1..]));
    }
  }

  lemma DigitBound(d: nat, p: nat, v: nat)
    requires d <= 9 && v < p
    ensures Scale(d, p) + v < 10 * p
    ensures d >= 1 ==> p <= Scale(d, p) + v
  {
    ScaleGrows(d, 10, p);
    ScaleTen(p);
  }

  lemma CanonicalParses(s: string)
    requires Canonical(s)
    ensures ParseInt(s) == Some(Value(s))
  {
    ValueBound(s);
    PowGrows(|s|, 18);
    Pow18();
  }

  lemma Pow18()
    ensures Pow10(18) == 1_000_000_000_000_000_000
  {
    assert Pow10(6) == 1_000_000;
    assert Pow10(12) == 1_000_000_000_000;
  }

  /** Numerals of one length are ordered like the integers. */
  lemma {:induction false} SameLength(a: string, b: string)
    requires Digits(a) && Digits(b) && |a| == |b|
    ensures Less(a, b) <==> Value(a) < Value(b)
  {
    if a != "" {
      SameLength(a[1..], b[1..]);
      ValueBound(a[1..]);
      ValueBound(b[1..]);
      FirstDigits(Digit(a[0]), Digit(b[0]), Pow10(|a| - 1), Value(a[1..]), Value(b[1..]));
    }
  }

  lemma FirstDigits(d: nat, e: nat, p: nat, x: nat, y: nat)
    requires x < p && y < p
    ensures d < e ==> Scale(d, p) + x < Scale(e, p) + y
    ensures e < d ==> Scale(e, p) + y < Scale(d, p) + x
  {
    if d < e { ScaleGrows(d, e, p); }
    if e < d { ScaleGrows(e, d, p); }
  }

  /** A longer numeral without leading zeros is the larger one. */
  lemma LongerIsLarger(long: string, short: string)
    requires Canonical(long) && Canonical(short) && |short| < |long|
    ensures Value(short) < Value(long)
  {
    ValueBound(short);
    PowGrows(|short|, |long| - 1);
    ValueBound(long[1..]);
    DigitBound(Digit(long[0]), Pow10(|long| - 1), Value(long[1..]));
  }

  /** A text compares with a longer one as with the beginning of it, which comes first if equal. */
  lemma {:induction false} LessLead(short: string, long: string)
    requires |short| < |long|
    ensures Less(short, long) <==> !Less(long[..|short|], short)
    ensures Less(long, short) <==> Less(long[..|short|], short)
  {
    if short != "" {
      LessLead(short[1..], long[1..]);
      assert long[..|short|][1..] == long[1..][..|short| - 1];
    }
  }

  /** The beginning of the longer numeral is not below the shorter one. */
  predicate Aligned(a: string, b: string) {
    if |a| == |b| then true
    else if |a| < |b| then !Less(b[..|a|], a)
    else !Less(a[..|b|], b)
  }

  /** Two numerals are ordered alike as texts and as integers if and only if the beginning of the
      longer is not below the shorter. */
  lemma OrdersAgree(a: string, b: string)
    requires Canonical(a) && Canonical(b)
    ensures (Less(a, b) <==> Value(a) < Value(b)) <==> Aligned(a, b)
  {
    if |a| == |b| {
      SameLength(a, b);
    } else if |a| < |b| {
      LongerIsLarger(b, a);
      LessLead(a, b);
    } else {
      LongerIsLarger(a, b);
      LessLead(b, a);
    }
  }

  // ----- numerals that were printed -----

  lemma {:induction false} ValueLast(s: string, c: char)
    requires Digits(s) && '0' <= c <= '9'
    ensures Digits(s + [c]) && Value(s + [c]) == 10 * Value(s) + Digit(c)
  {
    var t := s + [c];
    if s == "" {
      assert t == [c] && t[1..] == "" && Scale(Digit(c), 1) == Digit(c) by { ScaleOne(Digit(c)); }
    } else {
      ValueLast(s[1..], c);
      assert t[1..] == s[1..] + [c];
      ScaleTimes(Digit(s[0]), Pow10(|s| - 1));
    }
  }

  lemma {:induction false} ScaleOne(d: nat)
    ensures Scale(d, 1) == d
  {
    if d > 0 { ScaleOne(d - 1); }
  }

  lemma {:induction false} ScaleTimes(d: nat, p: nat)
    ensures Scale(d, 10 * p) == 10 * Scale(d, p)
  {
    if d > 0 { ScaleTimes(d - 1, p); }
  }

  lemma {:induction false} DecimalValue(n: nat)
    ensures Digits(Decimal(n)) && Value(Decimal(n)) == n
  {
    if n >= 10 {
      DecimalValue(n / 10);
      ValueLast(Decimal(n / 10), ('0' as int + n % 10) as char);
    } else {
      ValueLast("", ('0' as int + n) as char);
      assert "" + [('0' as int + n) as char] == Decimal(n);
    }
  }

  /** The text parses to the integer, or fails because it does not fit into 64 bits. */
  ghost predicate Parses(s: string, n: int) {
    ParseInt(s) == if -0x8000_0000_0000_0000 <= n < 0x8000_0000_0000_0000 then Some(n) else None
  }

  /** The digits parse to the integer, with either sign. */
  ghost predicate SignedParse(s: string, n: nat) {
    Parses(s, n) && Parses("+" + s, n) && Parses("-" + s, 0 - n)
  }

  lemma DigitsParse(s: string, n: nat)
    requires s != "" && Digits(s) && Value(s) == n
    ensures SignedParse(s, n)
  {
    assert ("+" + s)[1..] == s && ("-" + s)[1..] == s;
    assert '0' <= s[0] <= '9';
  }

  lemma PaddedParse(digits: string, zeros: nat, n: nat)
    requires digits != "" && Digits(digits) && Value(digits) == n
    ensures SignedParse(Pad(digits, zeros), n)
  {
    PadValue(digits, zeros);
    DigitsParse(Pad(digits, zeros), n);
  }

  /** Parsing undoes printing, with or without a sign and leading zeros. */
  lemma ParsesPrinted(n: nat, zeros: nat)
    ensures SignedParse(Pad(Decimal(n), zeros), n)
  {
    DecimalValue(n);
    PaddedParse(Decimal(n), zeros, n);
  }

  // ----- the order of integers, read off their texts -----

  /** k zeros in front. */
  function Pad(s: string, k: nat): string {
    if k == 0 then s else "0" + Pad(s, k - 1)
  }

  lemma {:induction false} PadValue(s: string, k: nat)
    requires Digits(s)
    ensures |Pad(s, k)| == |s| + k && Digits(Pad(s, k)) && Value(Pad(s, k)) == Value(s)
  {
    if k > 0 {
      PadValue(s, k - 1);
      assert Pad(s, k)[1..] == Pad(s, k - 1);
    }
  }

  /** The order of digits as texts, once padded to one length. */
  predicate DigitsLess(a: string, b: string) {
    if |a| < |b| then Less(Pad(a, |b| - |a|), b) else Less(a, Pad(b, |a| - |b|))
  }

  lemma DigitsLessIs(a: string, b: string)
    requires Digits(a) && Digits(b)
    ensures DigitsLess(a, b) <==> Value(a) < Value(b)
  {
    if |a| < |b| {
      PadValue(a, |b| - |a|);
      PaddedLess(a, Pad(a, |b| - |a|), b);
    } else {
      PadValue(b, |a| - |b|);
      PaddedLess(b, Pad(b, |a| - |b|), a);
    }
  }

  lemma PaddedLess(a: string, p: string, b: string)
    requires Digits(a) && Digits(p) && Digits(b) && |p| == |b| && Value(p) == Value(a)
    ensures Less(p, b) <==> Value(a) < Value(b)
    ensures Less(b, p) <==> Value(b) < Value(a)
  {
    SameLength(p, b);
    SameLength(b, p);
  }

  /** The order of two integers, read off their texts: signs and padded digits. */
  predicate NumeralLess(a: string, b: string) {
    if Negative(a) && Negative(b) then DigitsLess(Body(b), Body(a))
    else if Negative(a) then DigitsLess("0", Body(a)) || DigitsLess("0", Body(b))
    else !Negative(b) && DigitsLess(Body(a), Body(b))
  }

  lemma NumeralLessIs(a: string, b: string)
    requires ParseInt(a).Some? && ParseInt(b).Some?
    ensures NumeralLess(a, b) <==> ParseInt(a).value < ParseInt(b).value
  {
    DigitsLessIs(Body(a), Body(b));
    DigitsLessIs(Body(b), Body(a));
    ZeroBelow(Body(a));
    ZeroBelow(Body(b));
  }

  lemma ZeroBelow(a: string)
    requires Digits(a)
    ensures DigitsLess("0", a) <==> 0 < Value(a)
  {
    DigitsLessIs("0", a);
    assert "0"[1..] == "" && Value("0") == 0;
  }
}
