/** Durations: printed with the largest unit that divides them, read back with the factor of the unit. */
module SeqOutrun {
  import opened Text
  import opened Wrappers

  /** The type of the setting has 64 bits; the number in front of the unit is read as a signed one. */
  const ULONG: nat := 0x1_0000_0000_0000_0000
  const LONG_MAX: nat := 0x7FFF_FFFF_FFFF_FFFF

  const HOUR := 3600
  const DAY := 86400
  const WEEK := 604800
  const MONTH := 2678400
  const YEAR := 31536000

  predicate IsDigit(c: char) {
    '0' <= c <= '9'
  }

  function Decimal(n: nat): string {
    (if n < 10 then "" else Decimal(n / 10)) + [Digit(n % 10)]
  }

  function Value(s: string): nat
    requires forall i :: 0 <= i < |s| ==> IsDigit(s[i])
  {
    if s == "" then 0
    else
      assert IsDigit(s[|s| - 1]);
      Value(s[..|s| - 1]) * 10 + (s[|s| - 1] as int - '0' as int)
  }

  function Printed(v: nat): string {
    if v % YEAR == 0 then Decimal(v / YEAR) + "y"
    else if v % MONTH == 0 then Decimal(v / MONTH) + "m"
    else if v % WEEK == 0 then Decimal(v / WEEK) + "w"
    else if v % DAY == 0 then Decimal(v / DAY) + "d"
    else if v % HOUR == 0 then Decimal(v / HOUR) + "h"
    else Decimal(v)
  }

  function SkipSpaces(s: string): string {
    if s != "" && IsSpace(s[0]) then SkipSpaces(s[1..]) else s
  }

  function DigitCount(s: string): (n: nat)
    ensures n <= |s| && (forall i :: 0 <= i < n ==> IsDigit(s[i])) && (n < |s| ==> !IsDigit(s[n]))
  {
    if s != "" && IsDigit(s[0]) then 1 + DigitCount(s[1..]) else 0
  }

  /** What a unit stands for. */
  function Factor(unit: char): Option<nat> {
    match unit
    case 'y' => Some(YEAR) case 'Y' => Some(YEAR)
    case 'm' => Some(MONTH) case 'M' => Some(MONTH)
    case 'w' => Some(WEEK) case 'W' => Some(WEEK)
    case 'd' => Some(DAY) case 'D' => Some(DAY)
    case 'h' => Some(HOUR) case 'H' => Some(HOUR)
    case _ => None
  }

  function Saturated(n: nat): nat {
    if n <= LONG_MAX then n else LONG_MAX
  }

  /** The number of seconds, or nothing for a text that is no duration. */
  function Parsed(line: string): Option<nat> {
    var s := SkipSpaces(line);
    var n := DigitCount(s);
    if n == 0 then None
    else if n == |s| then Some(Saturated(Value(s)))
    else if n + 1 < |s| || Factor(s[n]) == None then None
    else Some(Saturated(Value(s[..n])) * Factor(s[n]).value % ULONG)
  }

  lemma {:induction false} DecimalValue(n: nat)
    ensures var s := Decimal(n);
            s != "" && (forall i :: 0 <= i < |s| ==> IsDigit(s[i])) && Value(s) == n
  {
    hide Decimal, Value;
    DecimalNext(n);
    if n < 10 {
      ValueNext("", n);
    } else {
      DecimalValue(n / 10);
      ValueNext(Decimal(n / 10), n % 10);
    }
  }

  function Digit(d: nat): (c: char)
    requires d < 10
    ensures IsDigit(c)
  {
    (d + '0' as int) as char
  }

  lemma DecimalNext(n: nat)
    ensures Decimal(n) == (if n < 10 then "" else Decimal(n / 10)) + [Digit(n % 10)]
  {}

  lemma ValueNext(s: string, d: nat)
    requires d < 10 && forall i :: 0 <= i < |s| ==> IsDigit(s[i])
    ensures forall i :: 0 <= i < |s| + 1 ==> IsDigit((s + [Digit(d)])[i])
    ensures Value(s + [Digit(d)]) == (if s == "" then 0 else Value(s) * 10) + d
  {
    assert (s + [Digit(d)])[..|s|] == s;
  }

  lemma {:induction false} DigitsThen(a: string, b: string)
    requires forall i :: 0 <= i < |a| ==> IsDigit(a[i])
    requires b == "" || !IsDigit(b[0])
    ensures DigitCount(a + b) == |a|
  {
    if a != "" {
      DigitsThen(a[1..], b);
      assert (a + b)[1..] == a[1..] + b;
    } else {
      assert a + b == b;
    }
  }

  lemma ParsedDecimal(n: nat, unit: string)
    requires |unit| <= 1 && (unit != "" ==> Factor(unit[0]) != None)
    ensures Parsed(Decimal(n) + unit)
            == Some(if unit == "" then Saturated(n) else Saturated(n) * Factor(unit[0]).value % ULONG)
  {
    hide Decimal, Value, Factor;
    DecimalValue(n);
    ParsedDigits(Decimal(n), unit);
  }

  lemma ParsedDigits(s: string, unit: string)
    requires s != "" && forall i :: 0 <= i < |s| ==> IsDigit(s[i])
    requires |unit| <= 1 && (unit != "" ==> Factor(unit[0]) != None)
    ensures var n := Saturated(Value(s));
            Parsed(s + unit) == Some(if unit == "" then n else n * Factor(unit[0]).value % ULONG)
  {
    hide Value, Saturated, Factor, SkipSpaces, DigitCount;
    if unit != "" {
      UnitIsNoDigit(unit[0]);
    }
    DigitsThen(s, unit);
    NoSpaces(s + unit);
    assert (s + unit)[..|s|] == s;
    if unit == "" {
      assert s + unit == s;
    }
  }

  lemma UnitIsNoDigit(c: char)
    requires Factor(c) != None
    ensures !IsDigit(c)
  {}

  lemma NoSpaces(s: string)
    requires s != "" && IsDigit(s[0])
    ensures SkipSpaces(s) == s
  {}

  predicate AllSpaces(s: string) {
    forall i :: 0 <= i < |s| ==> IsSpace(s[i])
  }

  predicate AllDigits(s: string) {
    forall i :: 0 <= i < |s| ==> '0' <= s[i] <= '9'
  }

  lemma {:induction false} SpacesThen(a: string, b: string)
    requires AllSpaces(a) && (b == "" || !IsSpace(b[0]))
    ensures SkipSpaces(a + b) == b
  {
    if a == "" {
      assert a + b == b;
    } else {
      assert (a + b)[1..] == a[1..] + b;
      SpacesThen(a[1..], b);
    }
  }

  /** Every text is white space, digits and a rest, and this is what is read from it: the number, no
      larger than 2^63 - 1, times the seconds of the unit, modulo 2^64. */
  lemma ParsedExactly(spaces: string, digits: string, rest: string)
    requires AllSpaces(spaces) && AllDigits(digits)
    requires rest == "" || (!IsDigit(rest[0]) && (digits == "" ==> !IsSpace(rest[0])))
    ensures var p := Parsed(spaces + (digits + rest));
            if digits == "" || |rest| > 1 then p == None
            else
              var n := if Value(digits) < 0x8000_0000_0000_0000 then Value(digits) else 0x8000_0000_0000_0000 - 1;
              if rest == "" then p == Some(n)
              else if rest == "y" || rest == "Y" then p == Some(n * (365 * 24 * 60 * 60) % 0x1_0000_0000_0000_0000)
              else if rest == "m" || rest == "M" then p == Some(n * (31 * 24 * 60 * 60) % 0x1_0000_0000_0000_0000)
              else if rest == "w" || rest == "W" then p == Some(n * (7 * 24 * 60 * 60) % 0x1_0000_0000_0000_0000)
              else if rest == "d" || rest == "D" then p == Some(n * (24 * 60 * 60) % 0x1_0000_0000_0000_0000)
              else if rest == "h" || rest == "H" then p == Some(n * (60 * 60) % 0x1_0000_0000_0000_0000)
              else p == None
  {
    hide Value, SkipSpaces, DigitCount;
    var s := digits + rest;
    SpacesThen(spaces, s);
    DigitsThen(digits, rest);
    assert s[..|digits|] == digits;
    if rest == "" {
      assert s == digits;
    } else if |rest| == 1 {
      assert s[|digits|] == rest[0] && rest == [rest[0]];
    }
  }

  /** A number is printed with as few digits as there are. */
  function Pow10(k: nat): nat {
    if k == 0 then 1 else 10 * Pow10(k - 1)
  }

  lemma {:induction false} DecimalLength(n: nat, k: nat)
    requires k > 0
    ensures |Decimal(n)| <= k <==> n < Pow10(k)
  {
    assert Pow10(k) == 10 * Pow10(k - 1);
    if n < 10 {
      Pow10Positive(k - 1);
    } else if k == 1 {
      assert Decimal(n / 10) != [];
    } else {
      DecimalLength(n / 10, k - 1);
    }
  }

  lemma {:induction false} Pow10Positive(k: nat)
    ensures Pow10(k) > 0
  {
    if k == 0 {
    } else {
      Pow10Positive(k - 1);
    }
  }

  /** A number is printed in the largest unit that measures it, in seconds if none does. */
  lemma PrintsLargestUnit(v: nat) returns (unit: string, seconds: nat)
    ensures unit in {"", "y", "m", "w", "d", "h"}
    ensures seconds > 0 && if unit == "" then seconds == 1 else Factor(unit[0]) == Some(seconds)
    ensures v % seconds == 0 && Printed(v) == Decimal(v / seconds) + unit
    ensures forall c {:trigger Factor(c)} :: Factor(c).Some? && v % Factor(c).value == 0 ==> Factor(c).value <= seconds
  {
    hide Decimal;
    if v % YEAR == 0 {
      unit, seconds := "y", YEAR;
    } else if v % MONTH == 0 {
      unit, seconds := "m", MONTH;
    } else if v % WEEK == 0 {
      unit, seconds := "w", WEEK;
    } else if v % DAY == 0 {
      unit, seconds := "d", DAY;
    } else if v % HOUR == 0 {
      unit, seconds := "h", HOUR;
    } else {
      unit, seconds := "", 1;
      assert Decimal(v) + "" == Decimal(v);
    }
  }

  lemma ParsedUnit(q: nat, factor: nat, unit: char)
    requires q * factor < ULONG && factor >= HOUR && Factor(unit) == Some(factor)
    ensures Parsed(Decimal(q) + [unit]) == Some(q * factor)
  {
    hide Parsed, Decimal, Factor;
    TimesMore(q, factor);
    ParsedDecimal(q, [unit]);
  }

  lemma TimesMore(q: nat, factor: nat)
    requires factor >= HOUR
    ensures q * factor >= q * HOUR
  {}

  /** Reading what was printed gives the number back exactly for all numbers up to the largest signed
      one and for all multiples of an hour above it. */
  lemma RoundTrip(v: nat)
    requires v < ULONG
    ensures Parsed(Printed(v)) == Some(v) <==> v <= LONG_MAX || v % HOUR == 0
  {
    hide Parsed, Decimal;
    if v % HOUR == 0 {
      HoursBack(v);
    } else {
      UnitsAreHours(v);
      ParsedDecimal(v, "");
      assert Decimal(v) + "" == Decimal(v);
    }
  }

  /** A setting that is not read back: the hours wrap round to a number above the largest signed one
      that is no multiple of an hour any more. */
  lemma NotReadBack() returns (line: string, v: nat)
    ensures Parsed(line) == Some(v) && v < ULONG && Parsed(Printed(v)) != Some(v)
  {
    hide Parsed, Printed, Decimal;
    line, v := Decimal(LONG_MAX) + "h", ULONG - HOUR;
    ParsedDecimal(LONG_MAX, "h");
    assert LONG_MAX * HOUR == 1799 * ULONG + v;
    RoundTrip(v);
  }

  lemma HoursBack(v: nat)
    requires v < ULONG && v % HOUR == 0
    ensures Parsed(Printed(v)) == Some(v)
  {
    hide Parsed, Decimal;
    if v % YEAR == 0 {
      ParsedUnit(v / YEAR, YEAR, 'y');
    } else if v % MONTH == 0 {
      ParsedUnit(v / MONTH, MONTH, 'm');
    } else if v % WEEK == 0 {
      ParsedUnit(v / WEEK, WEEK, 'w');
    } else if v % DAY == 0 {
      ParsedUnit(v / DAY, DAY, 'd');
    } else {
      ParsedUnit(v / HOUR, HOUR, 'h');
    }
  }

  lemma UnitsAreHours(v: nat)
    ensures v % YEAR == 0 || v % MONTH == 0 || v % WEEK == 0 || v % DAY == 0 ==> v % HOUR == 0
  {
    if v % YEAR == 0 {
      HoursOf(v, 8760 * (v / YEAR));
    } else if v % MONTH == 0 {
      HoursOf(v, 744 * (v / MONTH));
    } else if v % WEEK == 0 {
      HoursOf(v, 168 * (v / WEEK));
    } else if v % DAY == 0 {
      HoursOf(v, 24 * (v / DAY));
    }
  }

  lemma HoursOf(v: nat, k: nat)
    requires v == HOUR * k
    ensures v % HOUR == 0
  {}

  /* ---- The parser step by step ---- */

  lemma TimesTwice(x: nat, a: nat, b: nat)
    ensures x * a % ULONG * b % ULONG == x * (a * b) % ULONG
  {
    var q, r := x * a / ULONG, x * a % ULONG;
    assert x * a == ULONG * q + r;
    assert x * (a * b) == ULONG * (q * b) + r * b;
    Reduced(q * b, r * b);
  }

  lemma Reduced(k: int, x: int)
    ensures (ULONG * k + x) % ULONG == x % ULONG
  {}

  /** The value is read and then multiplied in place; `y` and `d` fall through to the units below. */
  method ParseSeqOutrun(line: Option<string>, before: nat) returns (failed: bool, seqOutrun: nat)
    ensures failed <==> line == None || Parsed(line.value) == None
    ensures !failed ==> seqOutrun == Parsed(line.value).value
  {
    failed, seqOutrun := true, before;
    if line == None {
      return;
    }
    var s := line.value;
    while s != "" && IsSpace(s[0])
      invariant SkipSpaces(s) == SkipSpaces(line.value)
      decreases |s|
    {
      s := s[1..];
    }
    if s == "" || !IsDigit(s[0]) {
      return;
    }
    var p := Digits(s);
    seqOutrun := Saturated(Value(s[..p]));
    if p == |s| {
      assert s[..p] == s;
      return false, seqOutrun;
    }
    if p + 1 < |s| {
      return;
    }
    failed, seqOutrun := Multiply(seqOutrun, s[p]);
  }

  method Digits(s: string) returns (p: nat)
    ensures p == DigitCount(s)
  {
    p := 0;
    while p < |s| && IsDigit(s[p])
      invariant p <= |s| && DigitCount(s) == p + DigitCount(s[p..])
    {
      p := p + 1;
    }
  }

  method Multiply(value: nat, unit: char) returns (failed: bool, seqOutrun: nat)
    requires value < ULONG
    ensures failed <==> Factor(unit) == None
    ensures seqOutrun == if failed then value else value * Factor(unit).value % ULONG
  {
    failed, seqOutrun := false, value;
    var u := ToLower(unit);
    if u == 'y' {
      seqOutrun := seqOutrun * 365 % ULONG;
    }
    if u == 'y' || u == 'd' {
      seqOutrun := seqOutrun * 24 % ULONG;
    }
    if u == 'y' || u == 'd' || u == 'h' {
      seqOutrun := seqOutrun * (60 * 60) % ULONG;
      TimesTwice(value, 365, 24);
      TimesTwice(value, 365 * 24, 60 * 60);
      TimesTwice(value, 24, 60 * 60);
    } else if u == 'w' {
      seqOutrun := seqOutrun * (7 * 24 * 60 * 60) % ULONG;
    } else if u == 'm' {
      seqOutrun := seqOutrun * (31 * 24 * 60 * 60) % ULONG;
    } else {
      failed := true;
    }
  }
}
