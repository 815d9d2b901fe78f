/** Fixed-width numerals in base 36, the notation of generated packet names. */
module Base36 {

  const DIGITS: string := "0123456789abcdefghijklmnopqrstuvwxyz"

  /** The character of a digit. */
  function DigitChar(d: int): char
    requires 0 <= d < 36
  {
    if d < 10 then '0' + d as char else 'a' + (d - 10) as char
  }

  /** It is the entry of the table the program indexes. */
  lemma DigitFromTable(d: int)
    requires 0 <= d < 36
    ensures |DIGITS| == 36 && DIGITS[d] == DigitChar(d)
  {}

  function Pow36(n: nat): (p: nat)
    ensures p > 0
  {
    if n == 0 then 1 else 36 * Pow36(n - 1)
  }

  predicate AreDigits(ds: seq<int>) {
    forall i :: 0 <= i < |ds| ==> 0 <= ds[i] < 36
  }

  /** The `n` low digits of `x`, least significant first. */
  function ToDigits(x: nat, n: nat): (ds: seq<int>)
    ensures |ds| == n && AreDigits(ds)
    decreases n
  {
    if n == 0 then [] else [x % 36] + ToDigits(x / 36, n - 1)
  }

  /** The number a digit vector denotes, least significant digit first. */
  function Value(ds: seq<int>): int {
    if ds == [] then 0 else ds[0] + 36 * Value(ds[1..])
  }

  /** Schoolbook addition with a carry that is dropped after the last digit. */
  function AddDigits(a: seq<int>, b: seq<int>, carry: nat): (s: seq<int>)
    requires |a| == |b| && AreDigits(a) && AreDigits(b)
    ensures |s| == |a| && AreDigits(s)
  {
    if a == [] then []
    else
      var d := carry + a[0] + b[0];
      [d % 36] + AddDigits(a[1..], b[1..], d / 36)
  }

  lemma CarryStep(x: nat, y: nat, carry: nat)
    ensures var d := carry + x % 36 + y % 36;
            && (x + y + carry) % 36 == d % 36
            && (x + y + carry) / 36 == x / 36 + y / 36 + d / 36
  {}

  /** Adding digit vectors adds the numbers they were cut from. */
  lemma {:induction false} AddDigitsAdds(x: nat, y: nat, carry: nat, n: nat)
    ensures AddDigits(ToDigits(x, n), ToDigits(y, n), carry) == ToDigits(x + y + carry, n)
  {
    hide AddDigits, ToDigits;
    if n == 0 {
      DigitsNone(x);
      DigitsNone(y);
      DigitsNone(x + y + carry);
      NoSum(carry);
    } else {
      DigitsNext(x, n);
      DigitsNext(y, n);
      DigitsNext(x + y + carry, n);
      SumDigits(ToDigits(x / 36, n - 1), ToDigits(y / 36, n - 1), x % 36, y % 36, carry);
      CarryStep(x, y, carry);
      AddDigitsAdds(x / 36, y / 36, (carry + x % 36 + y % 36) / 36, n - 1);
    }
  }

  lemma DigitsNext(x: nat, n: nat)
    requires n > 0
    ensures ToDigits(x, n) == [x % 36] + ToDigits(x / 36, n - 1)
  {}

  lemma DigitsNone(x: nat)
    ensures ToDigits(x, 0) == []
  {}

  lemma NoSum(carry: nat)
    ensures AddDigits([], [], carry) == []
  {}

  lemma SumDigits(a: seq<int>, b: seq<int>, x: int, y: int, carry: nat)
    requires |a| == |b| && AreDigits(a) && AreDigits(b) && 0 <= x < 36 && 0 <= y < 36
    ensures AddDigits([x] + a, [y] + b, carry)
            == [(carry + x + y) % 36] + AddDigits(a, b, (carry + x + y) / 36)
  {}

  /** One step of long division, the arithmetic core of the two lemmas below. */
  lemma ModStep(x: nat, p: nat)
    requires p > 0
    ensures x % (36 * p) == x % 36 + 36 * (x / 36 % p)
  {
    var q, r := x / 36, x % 36;
    var k, m := q / p, q % p;
    assert x == 36 * (p * k + m) + r;
    assert 36 * (p * k) == (36 * p) * k;
    DivModUnique(x, 36 * p, k, 36 * m + r);
  }

  lemma DivModUnique(x: int, d: int, q: int, r: int)
    requires 0 <= r < d && x == d * q + r
    ensures x / d == q && x % d == r
  {
    SameQuotient(d, x / d, x % d, q, r);
  }

  lemma SameQuotient(d: int, q: int, r: int, q': int, r': int)
    requires 0 <= r < d && 0 <= r' < d && d * q + r == d * q' + r'
    ensures q == q' && r == r'
  {
    var k := q - q';
    assert d * k == r' - r;
    if k >= 1 {
      AtLeastOneTimes(d, k);
    } else if k <= -1 {
      AtLeastOneTimes(d, -k);
    }
  }

  lemma AtLeastOneTimes(d: int, k: int)
    requires d > 0 && k >= 1
    ensures d * k >= d
  {
    assert d * (k - 1) >= 0;
  }

  /** Seven digits keep a number exactly modulo 36^7; `n` digits modulo 36^n. */
  lemma {:induction false} DigitsKeepValue(x: nat, n: nat)
    ensures Value(ToDigits(x, n)) == x % Pow36(n)
  {
    if n == 0 {
    } else {
      DigitsKeepValue(x / 36, n - 1);
      ModStep(x, Pow36(n - 1));
    }
  }

  /** Digit vectors of one width are equal exactly when the numbers agree modulo 36^n. */
  lemma {:induction false} DigitsEqual(x: nat, y: nat, n: nat)
    ensures ToDigits(x, n) == ToDigits(y, n) <==> x % Pow36(n) == y % Pow36(n)
  {
    hide ToDigits, Value, Pow36;
    DigitsKeepValue(x, n);
    DigitsKeepValue(y, n);
    if x % Pow36(n) == y % Pow36(n) {
      SameValueSameDigits(ToDigits(x, n), ToDigits(y, n));
    }
  }

  lemma {:induction false} SameValueSameDigits(a: seq<int>, b: seq<int>)
    requires |a| == |b| && AreDigits(a) && AreDigits(b)
    requires Value(a) == Value(b)
    ensures a == b
  {
    if a == [] {
    } else {
      SameValueSameDigits(a[1..], b[1..]);
      assert a == [a[0]] + a[1..] && b == [b[0]] + b[1..];
    }
  }

  /** The printed form: most significant digit first. */
  function Print(ds: seq<int>): (s: string)
    requires AreDigits(ds)
    ensures |s| == |ds|
    ensures forall k :: 0 <= k < |s| ==> s[k] == DigitChar(ds[|ds| - 1 - k])
  {
    if ds == [] then [] else Print(ds[1..]) + [DigitChar(ds[0])]
  }

  /** How a digit and a numeral are read. */
  function DigitRead(c: char): int {
    if '0' <= c <= '9' then c as int - '0' as int else c as int - 'a' as int + 10
  }

  function Read(s: string): int {
    if s == "" then 0 else 36 * Read(s[..|s| - 1]) + DigitRead(s[|s| - 1])
  }

  /** What is printed reads as the value of the digits. */
  lemma {:induction false} PrintReads(ds: seq<int>)
    requires AreDigits(ds)
    ensures Read(Print(ds)) == Value(ds)
  {
    hide DigitChar, DigitRead;
    if ds == [] {
    } else {
      PrintReads(ds[1..]);
      DigitReads(ds[0]);
      ReadNext(Print(ds[1..]), DigitChar(ds[0]));
    }
  }

  lemma ReadNext(s: string, c: char)
    ensures Read(s + [c]) == 36 * Read(s) + DigitRead(c)
  {
    assert (s + [c])[..|s|] == s;
  }

  lemma DigitReads(d: int)
    requires 0 <= d < 36
    ensures DigitRead(DigitChar(d)) == d
  {}

  lemma {:induction false} PrintInjective(a: seq<int>, b: seq<int>)
    requires |a| == |b| && AreDigits(a) && AreDigits(b)
    ensures Print(a) == Print(b) <==> a == b
  {
    if Print(a) == Print(b) {
      forall i | 0 <= i < |a| ensures a[i] == b[i] {
        assert Print(a)[|a| - 1 - i] == Print(b)[|a| - 1 - i];
      }
    }
  }
}
