/** The two decimal printers: itoa of the user library and the kernel's printint, with its pow. */
module Printers {
  import opened Words
  import opened CStrings

  const MINUS: byte := 0x2D
  const TEXT_BYTES: int := 12

  type i32 = x: int | -0x8000_0000 <= x < 0x8000_0000

  /** C division and remainder: towards zero. */
  function Div(a: int, b: int): int
    requires b > 0
  {
    if a >= 0 then a / b else -(-a / b)
  }

  function Mod(a: int, b: int): int
    requires b > 0
  {
    a - Div(a, b) * b
  }

  // -- Decimal numerals --------------------------------------------------------------------------

  /** The number a string of digits denotes. */
  function Value(s: seq<byte>): int {
    if s == [] then 0 else 10 * Value(s[..|s| - 1]) + (s[|s| - 1] as int - 0x30)
  }

  /** No leading zero, except in the numeral of zero. */
  ghost predicate Canonical(s: seq<byte>) {
    && s != [] && (forall i :: 0 <= i < |s| ==> 0x30 <= s[i] <= 0x39)
    && (|s| > 1 ==> s[0] != 0x30)
  }

  function Digits(n: nat): (s: seq<byte>)
    ensures n > 0 ==> |s| > 0
  {
    if n == 0 then [] else Digits(n / 10) + [DIGIT_0 + n % 10]
  }

  function Decimal(n: int): seq<byte> {
    if n < 0 then [MINUS] + Digits(-n) else if n == 0 then [DIGIT_0] else Digits(n)
  }

  lemma {:induction false} DigitsDenote(n: nat)
    ensures Value(Digits(n)) == n && (n > 0 ==> Canonical(Digits(n)) && Digits(n)[0] != DIGIT_0)
  {
    if n > 0 {
      DigitsDenote(n / 10);
      var s := Digits(n / 10);
      assert (s + [DIGIT_0 + n % 10])[..|s|] == s;
    }
  }

  lemma {:induction false} CanonicalValue(s: seq<byte>)
    requires Canonical(s)
    ensures Value(s) >= 0 && (Value(s) == 0 <==> s == [DIGIT_0])
    ensures Value(s) > 0 ==> Digits(Value(s)) == s
  {
    var front := s[..|s| - 1];
    if |s| == 1 {
      assert front == [];
      assert Value(s) == s[0] - DIGIT_0;
      assert Value(s) > 0 ==> Digits(Value(s)) == Digits(0) + [s[0]];
    } else {
      CanonicalValue(front);
      assert front != [DIGIT_0];
      assert s == front + [s[|s| - 1]];
      var v := Value(s);
      assert v / 10 == Value(front) && v % 10 == s[|s| - 1] - DIGIT_0;
    }
  }

  /** Digits is the only canonical numeral of a positive number. */
  lemma NumeralIsUnique(n: nat, s: seq<byte>)
    requires n > 0
    ensures Canonical(s) && Value(s) == n <==> s == Digits(n)
  {
    DigitsDenote(n);
    if Canonical(s) && Value(s) == n {
      CanonicalValue(s);
    }
  }

  /**
   The text of any number: an optional '-' (0x2D), there exactly for negative numbers, and then the
   canonical numeral of its magnitude, "0" (0x30) included.
   */
  lemma DecimalIs(n: int)
    ensures var text := Decimal(n);
            && text != [] && (text[0] == 0x2D <==> n < 0)
            && var numeral := if n < 0 then text[1..] else text;
            && Canonical(numeral) && Value(numeral) == if n < 0 then -n else n
    ensures Decimal(0) == [0x30]
  {
    if n != 0 {
      DigitsDenote(if n < 0 then -n else n);
      assert n < 0 ==> Decimal(n)[1..] == Digits(-n);
    }
  }

  /** And no other text of that form denotes it. */
  lemma DecimalIsUnique(n: int, numeral: seq<byte>)
    requires Canonical(numeral) && Value(numeral) == if n < 0 then -n else n
    ensures Decimal(n) == (if n < 0 then [0x2D] else []) + numeral
  {
    CanonicalValue(numeral);
  }

  // -- Powers ------------------------------------------------------------------------------------

  function Power(b: int, e: nat): int {
    if e == 0 then 1 else b * Power(b, e - 1)
  }

  lemma {:induction false} PowerSquares(b: int, e: nat)
    ensures Power(b * b, e) == Power(b, 2 * e)
  {
    if e > 0 {
      PowerSquares(b, e - 1);
      assert Power(b, 2 * e) == b * (b * Power(b, 2 * (e - 1)));
      assert (b * b) * Power(b, 2 * (e - 1)) == b * (b * Power(b, 2 * (e - 1)));
    }
  }

  function Abs(a: int): nat {
    if a < 0 then -a else a
  }

  lemma AbsProduct(a: int, b: int)
    ensures Abs(a * b) == Abs(a) * Abs(b)
  {
    if a < 0 && b < 0 {
      assert a * b == (-a) * (-b);
    } else if a < 0 {
      assert a * b == -((-a) * b);
    } else if b < 0 {
      assert a * b == -(a * (-b));
    }
  }

  lemma Grows(a: nat, b: nat)
    requires b >= 1
    ensures a <= a * b
  {
  }

  /** A non-zero number is no larger than its powers, nor its square than higher powers. */
  lemma {:induction false} PowerBounds(b: int, e: nat)
    requires b != 0
    ensures Abs(Power(b, e)) >= 1
    ensures e >= 1 ==> Abs(b) <= Abs(Power(b, e))
    ensures e >= 2 ==> Abs(b * b) <= Abs(Power(b, e))
  {
    if e > 0 {
      PowerBounds(b, e - 1);
      AbsProduct(b, Power(b, e - 1));
      AbsProduct(b, b);
      Grows(Abs(b), Abs(Power(b, e - 1)));
      if e >= 2 {
        Scales(Abs(b), Abs(b), Abs(Power(b, e - 1)));
      }
    }
  }

  lemma Scales(k: nat, a: nat, b: nat)
    requires a <= b
    ensures k * a <= k * b
  {
  }

  /** What the loop of pow keeps: the answer still to be formed from base, ans and exp. */
  ghost predicate Splits(power: int, base: int, ans: int, exp: nat) {
    exp >= 1 && base != 0 && ans != 0 && power == base * Power(ans, exp)
  }

  lemma SplitOdd(power: int, base: int, ans: int, exp: nat)
    requires Splits(power, base, ans, exp) && exp >= 3
    ensures Splits(power, base * ans, ans, exp - 1) && Abs(base * ans) <= Abs(power)
  {
    assert base * (ans * Power(ans, exp - 1)) == (base * ans) * Power(ans, exp - 1);
    AbsProduct(base * ans, Power(ans, exp - 1));
    PowerBounds(ans, exp - 1);
    Grows(Abs(base * ans), Abs(Power(ans, exp - 1)));
    AbsProduct(base, ans);
    Grows(Abs(base), Abs(ans));
  }

  lemma SplitEven(power: int, base: int, ans: int, exp: nat)
    requires Splits(power, base, ans, exp) && exp >= 2 && exp % 2 == 0
    ensures Splits(power, base, ans * ans, exp / 2) && Abs(ans * ans) <= Abs(power)
  {
    PowerSquares(ans, exp / 2);
    PowerBounds(ans, exp);
    SquareNonZero(ans);
    FactorBound(base, Power(ans, exp));
  }

  lemma SquareNonZero(a: int)
    requires a != 0
    ensures a * a != 0
  {
    AbsProduct(a, a);
    Grows(Abs(a), Abs(a));
  }

  lemma FactorBound(a: int, b: int)
    requires a != 0
    ensures Abs(b) <= Abs(a * b)
  {
    AbsProduct(a, b);
    Grows(Abs(b), Abs(a));
  }

  /**
   pow of math.h. Every intermediate value fits 32 bits whenever the power itself does. Zero to any
   power is 0 and negative exponents give 1.
   */
  method Pow(num: i32, exp: i32) returns (ans: i32)
    requires num != 0 && num != 1 && exp > 0 ==> Abs(Power(num, exp)) <= 0x7FFF_FFFF
    ensures ans == if num == 0 then 0 else if num == 1 || exp <= 0 then 1 else Power(num, exp)
  {
    if num == 0 {
      return 0;
    } else if num == 1 {
      return 1;
    }
    if exp < 0 {
      return 1;
    }
    if exp == 0 {
      return 1;
    }
    ghost var power := Power(num, exp);
    ans := num;
    var base: i32, e := 1, exp;
    while e > 1
      invariant e >= 1 && Splits(power, base, ans, e)
      decreases e
    {
      if e % 2 == 1 {
        SplitOdd(power, base, ans, e);
        base := base * ans;
        e := e - 1;
      }
      SplitEven(power, base, ans, e);
      ans := ans * ans;
      e := e / 2;
    }
    assert Power(ans, 1) == ans * Power(ans, 0);
    ans := ans * base;
  }

  // -- How many digits ---------------------------------------------------------------------------

  lemma {:induction false} DigitCount(n: nat)
    requires n > 0
    ensures Power(10, |Digits(n)| - 1) <= n < Power(10, |Digits(n)|)
  {
    if n < 10 {
      assert Digits(n) == Digits(0) + [DIGIT_0 + n];
      TenTimes(0);
    } else {
      DigitCount(n / 10);
      var k := |Digits(n / 10)|;
      TenTimes(k);
      TenTimes(k - 1);
      Tenfold(n, Power(10, k - 1), Power(10, k));
    }
  }

  lemma TenTimes(k: nat)
    ensures Power(10, 0) == 1 && Power(10, k + 1) == 10 * Power(10, k)
  {
  }

  lemma Tenfold(n: nat, lo: int, hi: int)
    requires lo <= n / 10 < hi
    ensures 10 * lo <= n < 10 * hi
  {
  }

  lemma {:induction false} TenMonotone(i: nat, j: nat)
    requires i <= j
    ensures 1 <= Power(10, i) <= Power(10, j)
    decreases j
  {
    if i < j {
      TenMonotone(i, j - 1);
    } else if j > 0 {
      TenMonotone(j - 1, j - 1);
    }
  }

  lemma TenToNine(k: nat)
    requires k == 9
    ensures Power(10, k) == 1_000_000_000 && Power(10, k + 1) == 10_000_000_000
  {
    assert Power(10, k - 9) == 1;
    assert Power(10, k - 8) == 10 * Power(10, k - 9);
    assert Power(10, k - 7) == 10 * Power(10, k - 8);
    assert Power(10, k - 6) == 10 * Power(10, k - 7);
    assert Power(10, k - 5) == 10 * Power(10, k - 6);
    assert Power(10, k - 4) == 10 * Power(10, k - 5);
    assert Power(10, k - 3) == 10 * Power(10, k - 4);
    assert Power(10, k - 2) == 10 * Power(10, k - 3);
    assert Power(10, k - 1) == 10 * Power(10, k - 2);
  }

  /** 32-bit magnitudes have at most ten digits. */
  lemma AtMostTenDigits(n: nat)
    requires n <= 0x8000_0000
    ensures |Digits(n)| <= 10
  {
    if |Digits(n)| > 10 {
      DigitCount(n);
      TenMonotone(10, |Digits(n)| - 1);
      TenToNine(9);
    }
  }

  // -- itoa --------------------------------------------------------------------------------------

  /** `static char text[12]` of itoa. */
  class Itoa {
    const text: array<byte>

    constructor ()
      ensures fresh(text) && text.Length == 12
    {
      text := new byte[TEXT_BYTES];
    }

    /** The canonical decimal form of every 32-bit number, NUL-terminated at the end of the buffer. */
    method Convert(n: i32) returns (start: nat)
      requires text.Length == TEXT_BYTES
      modifies text
      ensures start < 12 && text[start..11] == Decimal(n) && text[11] == NUL
    {
      var num: i32, loc: int, neg := n, TEXT_BYTES - 1, true;
      text[loc] := NUL;
      if num >= 0 {
        neg := false;
        num := -num;
      }
      ghost var magnitude: nat := 0 - num;
      loc := PrintDigits(num);
      if loc == TEXT_BYTES - 1 {
        loc := Prefix(loc, DIGIT_0, Digits(magnitude));
      }
      if neg {
        loc := Prefix(loc, MINUS, Digits(magnitude));
      }
      start := loc;
    }

    /** The loop: the digits of -num, for num at most zero. */
    method PrintDigits(num: i32) returns (loc: nat)
      requires num <= 0 && text.Length == TEXT_BYTES && text[TEXT_BYTES - 1] == NUL
      modifies text
      ensures 0 < loc && Ends(text[..], loc, Digits(0 - num))
    {
      var left := num;
      ghost var done: seq<byte> := [];
      loc := TEXT_BYTES - 1;
      AtMostTenDigits(0 - num);
      while left != 0
        invariant left <= 0 && |Digits(0 - left)| < loc && Ends(text[..], loc, done)
        invariant Digits(0 - num) == Digits(0 - left) + done
        decreases 0 - left
      {
        DigitTaken(left, done);
        loc := Prefix(loc, DIGIT_0 - Mod(left, 10), done);
        done := [DIGIT_0 - Mod(left, 10)] + done;
        left := Div(left, 10);
      }
    }

    /** text[--loc] = c. */
    method Prefix(loc: nat, c: byte, ghost done: seq<byte>) returns (place: nat)
      requires text.Length == TEXT_BYTES && 0 < loc && Ends(text[..], loc, done)
      modifies text
      ensures place == loc - 1 && Ends(text[..], place, [c] + done)
    {
      place := loc - 1;
      text[place] := c;
      assert text[place..TEXT_BYTES - 1] == [c] + text[loc..TEXT_BYTES - 1];
    }
  }

  /** The buffer ends in s and a NUL, from loc on. */
  ghost predicate Ends(text: seq<byte>, loc: nat, s: seq<byte>) {
    && |text| == TEXT_BYTES && text[TEXT_BYTES - 1] == NUL
    && loc < TEXT_BYTES && text[loc..TEXT_BYTES - 1] == s
  }

  /** One turn of the loop takes the last digit off. */
  lemma DigitTaken(left: i32, done: seq<byte>)
    requires left < 0
    ensures left < Div(left, 10) <= 0 && 0 <= DIGIT_0 - Mod(left, 10) < 0x100
    ensures Digits(0 - left) + done == Digits(0 - Div(left, 10)) + ([DIGIT_0 - Mod(left, 10)] + done)
    ensures |Digits(0 - Div(left, 10))| == |Digits(0 - left)| - 1
  {
    LastDigit(0 - left);
    var digits, last := Digits(0 - Div(left, 10)), [DIGIT_0 - Mod(left, 10)];
    assert (digits + last) + done == digits + (last + done);
  }

  lemma LastDigit(n: nat)
    requires n > 0
    ensures Digits(n) == Digits(n / 10) + [DIGIT_0 + n % 10]
    ensures Mod(0 - n, 10) == 0 - n % 10 && Div(0 - n, 10) == 0 - n / 10
  {
  }

  // -- printint ----------------------------------------------------------------------------------

  /** n without its k last digits. */
  function Above(n: nat, k: nat): nat {
    if k == 0 then n else Above(n / 10, k - 1)
  }

  /** The number its k last digits form. */
  function Below(n: nat, k: nat): nat {
    if k == 0 then 0 else 10 * Below(n / 10, k - 1) + n % 10
  }

  lemma {:induction false} PlaceValue(n: nat, k: nat)
    ensures Below(n, k + 1) == Above(n, k) % 10 * Power(10, k) + Below(n, k)
    ensures Below(n, k) < Power(10, k)
    ensures Above(n, k + 1) == Above(n, k) / 10
    decreases k
  {
    if k == 0 {
      assert Below(n, 1) == 10 * Below(n / 10, 0) + n % 10;
      assert Above(n, 1) == Above(n / 10, 0);
    } else {
      PlaceValue(n / 10, k - 1);
      var d, p := Above(n, k) % 10, Power(10, k - 1);
      assert 10 * (d * p + Below(n / 10, k - 1)) == d * (10 * p) + 10 * Below(n / 10, k - 1);
    }
  }

  lemma {:induction false} WholeNumber(n: nat, k: nat)
    requires k <= |Digits(n)|
    ensures |Digits(Above(n, k))| == |Digits(n)| - k
    ensures k == |Digits(n)| ==> Below(n, k) == n && Digits(Above(n, k)) == []
    decreases k
  {
    if k > 0 {
      WholeNumber(n / 10, k - 1);
    }
  }

  lemma QuotientIs(n: nat, p: nat, q: nat, r: nat)
    requires p >= 1 && n == q * p + r && r < p
    ensures n / p == q && n % p == r
  {
    var q', r' := n / p, n % p;
    assert n == q' * p + r';
    if q' > q {
      Scales(p, q + 1, q');
    } else if q' < q {
      Scales(p, q' + 1, q);
    }
  }

  /** The digits above place k are out, and bkp is what is left below it. */
  ghost predicate Emitted(n: nat, k: nat, bkp: int, digits: seq<byte>) {
    k <= |Digits(n)| && bkp == Below(n, k) && digits == Digits(Above(n, k))
  }

  /** Emitting the next digit of n. */
  lemma NextDigit(n: nat, k: nat, p: nat, bkp: int, digits: seq<byte>)
    requires Emitted(n, k + 1, bkp, digits) && p == Power(10, k) >= 1
    ensures Div(bkp, p) == Above(n, k) % 10 && Mod(bkp, p) == Below(n, k)
    ensures Emitted(n, k, Below(n, k), digits + [DIGIT_0 + Above(n, k) % 10])
  {
    PlaceValue(n, k);
    WholeNumber(n, k);
    LastDigit(Above(n, k));
    var d, r := Above(n, k) % 10, Below(n, k);
    QuotientIs(bkp, p, d, r);
  }

  /** One turn of the printing loop: place k of n. */
  method EmitDigit(bkp: i32, k: nat, ghost n: nat, ghost digits: seq<byte>) returns (c: byte, rest: i32)
    requires 0 < n <= 0x7FFF_FFFF && k < |Digits(n)| && Emitted(n, k + 1, bkp, digits)
    ensures Emitted(n, k, rest, digits + [c])
  {
    TenFits(n, k);
    var divres := Pow(10, k);
    NextDigit(n, k, divres, bkp, digits);
    PlaceValue(n, k);
    Smaller(n, k);
    c := DIGIT_0 + Div(bkp, divres);
    rest := Mod(bkp, divres);
  }

  lemma {:induction false} Smaller(n: nat, k: nat)
    ensures Below(n, k) <= n
    decreases k
  {
    if k > 0 {
      Smaller(n / 10, k - 1);
    }
  }

  /** printint for every number but INT_MIN: what it puts on the terminal. */
  method PrintInt(n: i32) returns (out: seq<byte>)
    requires n > -0x8000_0000
    ensures out == Decimal(n)
  {
    out := [];
    var num: i32 := n;
    if num < 0 {
      out := out + [MINUS];
      num := num * -1;
    }
    if num == 0 {
      out := out + [DIGIT_0];
      return;
    }
    ghost var sign, digits: seq<byte> := out, [];
    var bkp: i32 := num;
    var numLen := CountDigits(num);
    WholeNumber(num, numLen);
    var i := 0;
    while i < numLen
      invariant 0 <= i <= numLen == |Digits(num)|
      invariant Emitted(num, numLen - i, bkp, digits) && out == sign + digits
    {
      var c;
      c, bkp := EmitDigit(bkp, numLen - i - 1, num, digits);
      digits := digits + [c];
      out := out + [c];
      i := i + 1;
    }
    assert digits == Digits(Above(num, 0));
  }

  lemma TenFits(n: nat, k: nat)
    requires 0 < n <= 0x7FFF_FFFF && k < |Digits(n)|
    ensures 1 <= Power(10, k) <= n && k <= 9
  {
    AtMostTenDigits(n);
    DigitCount(n);
    TenMonotone(k, |Digits(n)| - 1);
  }

  /** The loop that counts the digits. */
  method CountDigits(n: i32) returns (numLen: nat)
    requires n >= 0
    ensures numLen == |Digits(n)|
  {
    var num: i32 := n;
    numLen := 0;
    while num != 0
      invariant num >= 0 && numLen + |Digits(num)| == |Digits(n)|
      decreases num
    {
      num := Div(num, 10);
      numLen := numLen + 1;
    }
  }
}
