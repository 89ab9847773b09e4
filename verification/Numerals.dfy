/** Numbers in base ten. */
module Numerals {
  predicate IsDigit(c: char) {
    '0' <= c <= '9'
  }

  /** The number that the leading digits denote. */
  function Digits(s: string, acc: nat): (n: nat)
    decreases |s|
  {
    if s != [] && IsDigit(s[0]) then Digits(s[1..], acc * 10 + (s[0] as int - '0' as int)) else acc
  }

  function Digit(d: nat): char
    requires d < 10
  {
    '0' + d as char
  }

  /** A number printed in base ten. */
  function Decimal(n: nat): (s: string)
    ensures s != [] && forall c :: c in s ==> IsDigit(c)
  {
    if n < 10 then [Digit(n)] else Decimal(n / 10) + [Digit(n % 10)]
  }

  lemma {:induction false} DigitsAppend(s: string, t: string, acc: nat)
    requires forall c :: c in s ==> IsDigit(c)
    ensures Digits(s + t, acc) == Digits(t, Digits(s, acc))
    decreases |s|
  {
    if s == [] {
      assert s + t == t;
    } else {
      assert s[0] in s && (s + t)[0] == s[0] && (s + t)[1..] == s[1..] + t;
      DigitsAppend(s[1..], t, acc * 10 + (s[0] as int - '0' as int));
    }
  }

  /** A printed number reads back, whatever other than a digit follows. */
  lemma {:induction false} DecimalRead(n: nat, t: string)
    requires t == [] || !IsDigit(t[0])
    ensures Digits(Decimal(n) + t, 0) == n
    decreases n
  {
    DigitsAppend(Decimal(n), t, 0);
    assert Digits(t, n) == n;
    if n < 10 {
      assert Digits([Digit(n)], 0) == Digits([], n) == n;
    } else {
      var front, last := Decimal(n / 10), [Digit(n % 10)];
      DecimalRead(n / 10, []);
      assert front + [] == front;
      DigitsAppend(front, last, 0);
      assert Digits(last, n / 10) == Digits([], n / 10 * 10 + n % 10) == n;
    }
  }

  // ---------- numbers as the C library reads them ----------

  predicate IsWhite(c: char) {
    c == ' ' || '\t' <= c <= '\r'
  }

  function AfterWhite(s: string): string
    decreases |s|
  {
    if s != [] && IsWhite(s[0]) then AfterWhite(s[1..]) else s
  }

  /** What `strtol` and its kin find: nothing, or a number with a sign. */
  datatype Numeral = NotFound | Found(negative: bool, size: nat)

  function FindNumber(text: string): Numeral {
    var s := AfterWhite(text);
    var negative := s != [] && s[0] == '-';
    var digits := if negative || (s != [] && s[0] == '+') then s[1..] else s;
    if digits != [] && IsDigit(digits[0]) then Found(negative, Digits(digits, 0)) else NotFound
  }

  /** `strtoull`: a number that is too large becomes the largest, a negative one wraps. */
  function ToUlong(s: string): (n: nat)
    ensures n < 0x1_0000_0000_0000_0000
  {
    match FindNumber(s)
    case NotFound => 0
    case Found(negative, size) =>
      if size > 0xFFFF_FFFF_FFFF_FFFF then 0xFFFF_FFFF_FFFF_FFFF
      else if negative then (0x1_0000_0000_0000_0000 - size) % 0x1_0000_0000_0000_0000
      else size
  }

  /** `strtol`: a number that is too large in size becomes the nearest there is. */
  function ToLong(s: string): (n: int)
    ensures -0x8000_0000_0000_0000 <= n < 0x8000_0000_0000_0000
  {
    match FindNumber(s)
    case NotFound => 0
    case Found(negative, size) =>
      var value: int := if negative then 0 - size else size;
      if value < -0x8000_0000_0000_0000 then -0x8000_0000_0000_0000
      else if value > 0x7FFF_FFFF_FFFF_FFFF then 0x7FFF_FFFF_FFFF_FFFF
      else value
  }

  lemma DecimalFound(n: nat, t: string)
    requires t == [] || !IsDigit(t[0])
    ensures FindNumber(Decimal(n) + t) == Found(false, n)
  {
    var s := Decimal(n) + t;
    assert Decimal(n)[0] in Decimal(n) && s[0] == Decimal(n)[0];
    assert AfterWhite(s) == s;
    DecimalRead(n, t);
  }

  /** Blanks in front of a number are passed over. */
  lemma {:induction false} WhitePassed(blanks: string, s: string)
    requires forall c :: c in blanks ==> c in {' ', '\t', '\n', 11 as char, 12 as char, '\r'}
    requires s != [] ==> !IsWhite(s[0])
    ensures AfterWhite(blanks + s) == s
    decreases |blanks|
  {
    if blanks == [] {
      assert blanks + s == s;
    } else {
      assert blanks[0] in blanks && (blanks + s)[1..] == blanks[1..] + s;
      assert forall c :: c in blanks[1..] ==> c in blanks;
      WhitePassed(blanks[1..], s);
    }
  }

  /** And a number may have a sign. */
  lemma SignedFound(blanks: string, n: nat, t: string)
    requires forall c :: c in blanks ==> c in {' ', '\t', '\n', 11 as char, 12 as char, '\r'}
    requires t == [] || !IsDigit(t[0])
    ensures FindNumber(blanks + (Decimal(n) + t)) == Found(false, n)
    ensures FindNumber(blanks + ("+" + (Decimal(n) + t))) == Found(false, n)
    ensures FindNumber(blanks + ("-" + (Decimal(n) + t))) == Found(true, n)
  {
    var d := Decimal(n) + t;
    assert Decimal(n)[0] in Decimal(n) && d[0] == Decimal(n)[0];
    DecimalRead(n, t);
    WhitePassed(blanks, d);
    WhitePassed(blanks, "+" + d);
    WhitePassed(blanks, "-" + d);
    hide AfterWhite;
    hide Decimal;
    hide Digits;
    assert ("+" + d)[1..] == d && ("-" + d)[1..] == d;
  }

  /** What is found is taken exactly when it fits, and else as the nearest number that does; without a sign bit a
      negative number counts from the top. */
  lemma NumbersFit(s: string, n: nat)
    ensures FindNumber(s) == Found(false, n) ==>
      && ToLong(s) == (if n < 0x8000_0000_0000_0000 then n else 0x7FFF_FFFF_FFFF_FFFF)
      && ToUlong(s) == (if n < 0x1_0000_0000_0000_0000 then n else 0xFFFF_FFFF_FFFF_FFFF)
    ensures FindNumber(s) == Found(true, n) ==>
      && ToLong(s) == (if n <= 0x8000_0000_0000_0000 then 0 - n else -0x8000_0000_0000_0000)
      && (0 < n < 0x1_0000_0000_0000_0000 ==> ToUlong(s) + n == 0x1_0000_0000_0000_0000)
    ensures FindNumber(s) == NotFound ==> ToLong(s) == 0 && ToUlong(s) == 0
  {
  }

  lemma {:induction false} DecimalLength(n: nat, k: nat)
    requires k > 0 && n < Power10(k)
    ensures |Decimal(n)| <= k
    decreases k
  {
    if n >= 10 { DecimalLength(n / 10, k - 1); }
  }

  function Power10(k: nat): nat {
    if k == 0 then 1 else 10 * Power10(k - 1)
  }

  /** Prints a number from its last digit on. */
  method UintToString(value: nat) returns (s: string)
    ensures s == Decimal(value)
  {
    s := [Digit(value % 10)];
    var rest: nat := value / 10;
    while rest != 0
      invariant Decimal(value) == if rest == 0 then s else Decimal(rest) + s
    {
      assert rest < 10 ==> Decimal(rest) == [Digit(rest % 10)];
      assert rest >= 10 ==>
        (Decimal(rest / 10) + [Digit(rest % 10)]) + s == Decimal(rest / 10) + ([Digit(rest % 10)] + s);
      s := [Digit(rest % 10)] + s;
      rest := rest / 10;
    }
  }
}
