/** The string operations the router uses: ASCII lower-casing, affixes, the byte
    order of Go's `<`, and the decimal printing of `%d`. */
module Strings {
  import opened Prelude

  function LowerChar(c: char): char {
    if 'A' <= c <= 'Z' then (c as int + 32) as char else c
  }

  function Lower(s: string): (r: string)
    ensures |r| == |s|
  {
    seq(|s|, i requires 0 <= i < |s| => LowerChar(s[i]))
  }

  /** The same letter, or an ASCII letter and its other case, 32 apart. */
  predicate SameLetter(c: char, d: char) {
    || c == d
    || ('A' <= c <= 'Z' && d as int == c as int + 32)
    || ('A' <= d <= 'Z' && c as int == d as int + 32)
  }

  predicate SameIgnoringCase(a: string, b: string) {
    |a| == |b| && forall i | 0 <= i < |a| :: SameLetter(a[i], b[i])
  }

  /** Lower-casing makes equal exactly what is the same ignoring ASCII case. */
  lemma LowerExactly(a: string, b: string)
    ensures Lower(a) == Lower(b) <==> SameIgnoringCase(a, b)
  {
    assert forall c, d :: LowerChar(c) == LowerChar(d) <==> SameLetter(c, d);
    if Lower(a) == Lower(b) {
      assert |a| == |Lower(a)| == |b|;
      forall i | 0 <= i < |a|
        ensures SameLetter(a[i], b[i])
      {
        assert Lower(a)[i] == Lower(b)[i];
      }
    }
  }

  predicate HasPrefix(s: string, p: string) { p <= s }

  lemma HasPrefixExactly(s: string, p: string)
    ensures HasPrefix(s, p) <==> exists rest :: s == p + rest
  {
    if HasPrefix(s, p) { assert s == p + s[|p|..]; }
  }

  predicate HasSuffix(s: string, p: string) { |p| <= |s| && s[|s| - |p|..] == p }

  lemma HasSuffixExactly(s: string, p: string)
    ensures HasSuffix(s, p) <==> exists front :: s == front + p
  {
    if HasSuffix(s, p) { assert s == s[..|s| - |p|] + p; }
    forall front | s == front + p
      ensures HasSuffix(s, p)
    {
      assert s[|front|..] == p;
    }
  }

  predicate IsDigit(c: char) { '0' <= c <= '9' }

  /** `strings.LastIndex` for a one-character needle; -1 when absent. */
  function LastIndex(s: string, c: char): (i: int)
    ensures -1 <= i < |s|
    ensures i >= 0 ==> s[i] == c
    ensures forall k | i < k < |s| :: s[k] != c
  {
    if s == [] then -1
    else if s[|s| - 1] == c then |s| - 1
    else LastIndex(s[..|s| - 1], c)
  }

  // ----- Go's string order ---------------------------------------------------

  predicate Less(a: string, b: string) {
    b != [] && (a == [] || a[0] < b[0] || (a[0] == b[0] && Less(a[1..], b[1..])))
  }

  /** The strings agree up to a position at which the first one ends or is smaller. */
  predicate SmallerAt(a: string, b: string, k: nat) {
    k <= |a| && k < |b| && a[..k] == b[..k] && (k == |a| || a[k] < b[k])
  }

  lemma {:induction false} LessExactly(a: string, b: string)
    ensures Less(a, b) <==> exists k: nat :: SmallerAt(a, b, k)
  {
    if b != [] && a != [] && a[0] == b[0] {
      LessExactly(a[1..], b[1..]);
      forall k: nat | SmallerAt(a[1..], b[1..], k)
        ensures SmallerAt(a, b, k + 1)
      {
        assert a[..k + 1] == [a[0]] + a[1..][..k] && b[..k + 1] == [b[0]] + b[1..][..k];
      }
      forall k: nat | SmallerAt(a, b, k)
        ensures k > 0 && SmallerAt(a[1..], b[1..], k - 1)
      {
        assert k > 0 ==> a[1..][..k - 1] == a[..k][1..] && b[1..][..k - 1] == b[..k][1..];
      }
    } else {
      assert Less(a, b) ==> SmallerAt(a, b, 0);
      forall k: nat | SmallerAt(a, b, k)
        ensures Less(a, b)
      {
        if k > 0 && a != [] { assert a[..k][0] == b[..k][0]; }
      }
    }
  }

  lemma {:induction false} LessIrreflexive(a: string)
    ensures !Less(a, a)
  {
    if a != [] { LessIrreflexive(a[1..]); }
  }

  lemma {:induction false} LessTransitive(a: string, b: string, c: string)
    requires Less(a, b) && Less(b, c)
    ensures Less(a, c)
  {
    if a != [] && a[0] == b[0] == c[0] { LessTransitive(a[1..], b[1..], c[1..]); }
  }

  lemma {:induction false} LessTotal(a: string, b: string)
    ensures Less(a, b) || a == b || Less(b, a)
  {
    if a != [] && b != [] && a[0] == b[0] {
      LessTotal(a[1..], b[1..]);
      assert a == [a[0]] + a[1..] && b == [b[0]] + b[1..];
    }
  }

  // ----- Decimal printing ----------------------------------------------------

  function Digits(n: nat): (s: string)
    ensures |s| > 0 && forall i | 0 <= i < |s| :: IsDigit(s[i])
  {
    var d := [('0' as int + n % 10) as char];
    if n < 10 then d else Digits(n / 10) + d
  }

  /** `%d` */
  function Itoa(n: int): (s: string)
    ensures |s| > 0 && forall i | 0 <= i < |s| :: IsDigit(s[i]) || s[i] == '-'
  {
    if n < 0 then "-" + Digits(-n) else Digits(n)
  }

  function DigitValue(c: char): nat
    requires IsDigit(c)
  {
    c as int - '0' as int
  }

  function DigitsValue(s: string): nat
    requires forall i | 0 <= i < |s| :: IsDigit(s[i])
  {
    if s == [] then 0 else 10 * DigitsValue(s[..|s| - 1]) + DigitValue(s[|s| - 1])
  }

  function PowerOfTen(n: nat): nat { if n == 0 then 1 else 10 * PowerOfTen(n - 1) }

  lemma TimesTen(v: int, p: int)
    ensures v * (10 * p) == 10 * (v * p)
  {
  }

  /** Decimal place value, from the left. */
  lemma {:induction false} LeadingDigit(c: char, s: string)
    requires IsDigit(c) && forall i | 0 <= i < |s| :: IsDigit(s[i])
    ensures DigitsValue([c] + s) == (c as int - '0' as int) * PowerOfTen(|s|) + DigitsValue(s)
  {
    if s == [] {
      assert [c] + s == [c] && [c][..0] == [];
    } else {
      var n, v: int := |s| - 1, c as int - '0' as int;
      LeadingDigit(c, s[..n]);
      assert ([c] + s)[..|s|] == [c] + s[..n] && ([c] + s)[|s|] == s[n];
      TimesTen(v, PowerOfTen(n));
    }
  }

  lemma {:induction false} DigitsRoundTrip(n: nat)
    ensures DigitsValue(Digits(n)) == n
  {
    var s := Digits(n);
    if n >= 10 {
      DigitsRoundTrip(n / 10);
      assert s[..|s| - 1] == Digits(n / 10);
    } else {
      assert s[..|s| - 1] == [];
    }
  }

  lemma ItoaInjective(m: int, n: int)
    requires Itoa(m) == Itoa(n)
    ensures m == n
  {
    assert Itoa(m)[0] == '-' <==> m < 0;
    assert Itoa(n)[0] == '-' <==> n < 0;
    if m < 0 {
      assert Itoa(m)[1..] == Digits(-m) && Itoa(n)[1..] == Digits(-n);
      DigitsRoundTrip(-m);
      DigitsRoundTrip(-n);
    } else {
      DigitsRoundTrip(m);
      DigitsRoundTrip(n);
    }
  }

  /** Text before a separator that cannot occur in it is recovered by cutting there. */
  lemma {:induction false} CutUnique(a: string, x: string, b: string, y: string, sep: char)
    requires sep !in a && sep !in b
    requires x == [] || x[0] == sep
    requires y == [] || y[0] == sep
    requires a + x == b + y
    ensures a == b && x == y
  {
    assert a != [] ==> (a + x)[0] == a[0] && (a + x)[1..] == a[1..] + x;
    assert b != [] ==> (b + y)[0] == b[0] && (b + y)[1..] == b[1..] + y;
    assert a == [] ==> a + x == x;
    assert b == [] ==> b + y == y;
    if a != [] && b != [] {
      CutUnique(a[1..], x, b[1..], y, sep);
      assert a == [a[0]] + a[1..] && b == [b[0]] + b[1..];
    }
  }

  // ----- Reading numbers and cutting text ---------------------------------------

  const MAX_INT: int := 0x7fff_ffff_ffff_ffff

  predicate AllDigits(s: string) { forall i | 0 <= i < |s| :: IsDigit(s[i]) }

  /** `strconv.Atoi` on a 64-bit platform. */
  function Atoi(s: string): Option<int> {
    var negative := s != "" && s[0] == '-';
    var digits := if s != "" && (s[0] == '-' || s[0] == '+') then s[1..] else s;
    if digits == "" || !AllDigits(digits) then None else
      var n: int := DigitsValue(digits);
      if negative then (if n > MAX_INT + 1 then None else Some(-n))
      else if n > MAX_INT then None else Some(n)
  }

  /** The number a text stands for: digits, perhaps signed, within 64 bits. */
  predicate Spells64(s: string, d: string, n: int) {
    && d != "" && AllDigits(d)
    && (|| ((s == d || s == "+" + d) && n == DigitsValue(d) <= 9223372036854775807)
        || (s == "-" + d && n + DigitsValue(d) == 0 && n >= -9223372036854775808))
  }

  lemma AtoiExactly(s: string, n: int)
    ensures Atoi(s) == Some(n) <==> exists d :: Spells64(s, d, n)
  {
    hide DigitsValue;
    var d := if s != "" && (s[0] == '-' || s[0] == '+') then s[1..] else s;
    if Atoi(s) == Some(n) {
      assert s == d || s == "+" + d || s == "-" + d;
      assert Spells64(s, d, n);
    }
    forall d' | Spells64(s, d', n)
      ensures Atoi(s) == Some(n)
    {
      assert IsDigit(d'[0]);
      assert d == d';
    }
  }

  /** Position of the first occurrence; -1 when absent. */
  function IndexOf(s: string, c: char): (i: int)
    ensures -1 <= i < |s|
    ensures i >= 0 ==> s[i] == c
    ensures forall k | 0 <= k < (if i < 0 then |s| else i) :: s[k] != c
  {
    if s == "" then -1 else if s[0] == c then 0 else
      var i := IndexOf(s[1..], c);
      if i < 0 then -1 else i + 1
  }

  predicate IsSpace(c: char) {
    c == ' ' || '\t' <= c <= '\r' || c as int == 0x85 || c as int == 0xA0
  }

  /** Tab, line feed, vertical tab, form feed, carriage return, space and the two of Latin-1. */
  lemma IsSpaceExactly(c: char)
    ensures IsSpace(c) <==> c as int in {9, 10, 11, 12, 13, 32, 0x85, 0xA0}
  {
  }

  predicate Blank(s: string) { forall i | 0 <= i < |s| :: IsSpace(s[i]) }

  function WordLength(s: string): (n: nat)
    ensures n <= |s| && (s != "" && !IsSpace(s[0]) ==> n > 0)
  {
    if s == "" || IsSpace(s[0]) then 0 else 1 + WordLength(s[1..])
  }

  /** `strings.Fields` */
  function Words(s: string): (ws: seq<string>)
    decreases |s|
  {
    if s == "" then [] else if IsSpace(s[0]) then Words(s[1..]) else
      var n := WordLength(s);
      [s[..n]] + Words(s[n..])
  }

  lemma {:induction false} WordsOfBlank(s: string)
    ensures Words(s) == [] <==> Blank(s)
  {
    if s != "" && IsSpace(s[0]) {
      WordsOfBlank(s[1..]);
      assert s == [s[0]] + s[1..];
    }
  }
}
