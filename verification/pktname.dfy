/** Names of packet files: what one name says. A name is seven base-36 digits, computed from a
    base time and a node-specific offset, followed by one counter digit. */
module PacketNames {
  import opened Base36

  /** The primary address of the system; its four parts are never negative. */
  datatype Aka = Aka(zone: nat, net: nat, node: nat, point: nat)

  /** What distinguishes the names one system emits: the base time and the counter. */
  datatype Emission = Emission(base: nat, counter: nat)

  const WIDTH: nat := 7
  const EPOCH_SPAN: int := 78364164096

  /** The six decimal digits that every address contributes from its net and node. */
  function OuterDigits(net: nat, node: nat): (d: nat)
    ensures d <= 99009999
  {
    var node10 := node % 100 / 10;
    var node1 := node % 10;
    var node100 := node % 1000 / 100;
    var node1000 := node % 10000 / 1000;
    var net100 := net % 1000 / 100;
    var net1000 := net % 10000 / 1000;
    node10 * 10000000 + node1 * 1000000 + node100 * 1000 + node1000 * 100 + net100 * 10 + net1000
  }

  /** The eight decimal digits of an address, in the order the program arranges them. */
  function Decimals(aka: Aka): nat {
    var middle := if aka.point != 0 then aka.point else aka.net;
    OuterDigits(aka.net, aka.node) + middle % 100 / 10 * 100000 + middle % 10 * 10000
  }

  function Offset(aka: Aka): nat {
    Decimals(aka) * 21
  }

  /** The counter value a base time starts with. */
  function StartCounter(aka: Aka): (c: nat)
    ensures c < 36
  {
    (aka.net % 100 / 10 * 10 + aka.net % 10 + aka.point % 1000 / 100) % 36
  }

  /** The eight characters printed for a number and a counter. */
  function Numeral(x: nat, counter: nat): (s: string)
    requires counter < 36
    ensures |s| == 8
  {
    Print(ToDigits(x, WIDTH)) + [DigitChar(counter)]
  }

  /** The eight characters of a file name. */
  function Stem(offset: nat, e: Emission): string
    requires e.counter < 36
  {
    Numeral(e.base + 36 * offset, e.counter)
  }

  /** A stem read back: in base 36 its first seven characters are the base time and 36 times the
      offset, modulo 36^7, and the last one is the counter. */
  lemma StemReads(offset: nat, e: Emission)
    requires e.counter < 36
    ensures Read(Stem(offset, e)[..7]) == (e.base + 36 * offset) % (36 * 36 * 36 * 36 * 36 * 36 * 36)
    ensures DigitRead(Stem(offset, e)[7]) == e.counter
  {
    hide ToDigits, Print, Pow36;
    var ds := ToDigits(e.base + 36 * offset, WIDTH);
    DigitReads(e.counter);
    assert Stem(offset, e)[..7] == Print(ds);
    PrintReads(ds);
    DigitsKeepValue(e.base + 36 * offset, WIDTH);
    Powers();
  }

  /** The offset fits 32 bits, and its six base-36 digits lose nothing. */
  lemma OffsetFits(aka: Aka)
    ensures Decimals(aka) <= 99999999
    ensures Offset(aka) < 0x1_0000_0000
    ensures Offset(aka) < Pow36(6)
    ensures Value(ToDigits(Offset(aka), 6)) == Offset(aka)
  {
    hide ToDigits, Value, Pow36, Decimals;
    Powers();
    DecimalsFit(aka);
    DigitsKeepValue(Offset(aka), 6);
  }

  lemma DecimalsFit(aka: Aka)
    ensures Decimals(aka) <= 99999999
  {
    hide OuterDigits;
  }

  /** The decimal digit of a number at a place, the last being place 0. */
  function DecimalAt(n: nat, place: nat): nat {
    if place == 0 then n % 10 else DecimalAt(n / 10, place - 1)
  }

  function Horner(ds: seq<nat>): nat {
    if ds == [] then 0 else 10 * Horner(ds[..|ds| - 1]) + ds[|ds| - 1]
  }

  lemma {:induction false} HornerDigit(ds: seq<nat>, place: nat)
    requires place < |ds| && forall i :: 0 <= i < |ds| ==> ds[i] < 10
    ensures DecimalAt(Horner(ds), place) == ds[|ds| - 1 - place]
  {
    var rest := ds[..|ds| - 1];
    assert Horner(ds) % 10 == ds[|ds| - 1] && Horner(ds) / 10 == Horner(rest);
    if place == 0 {
    } else {
      HornerDigit(rest, place - 1);
    }
  }

  lemma FourDecimals(n: nat)
    ensures n % 10 == DecimalAt(n, 0) && n % 100 / 10 == DecimalAt(n, 1)
    ensures n % 1000 / 100 == DecimalAt(n, 2) && n % 10000 / 1000 == DecimalAt(n, 3)
  {
    var a, b, c := n / 10, n / 10 / 10, n / 10 / 10 / 10;
    FourPlaces(n, n % 10, a % 10, b % 10, c % 10, c / 10);
    hide DecimalAt;
    DecimalSteps(n);
  }

  lemma DecimalSteps(n: nat)
    ensures DecimalAt(n, 0) == n % 10 && DecimalAt(n, 1) == n / 10 % 10
    ensures DecimalAt(n, 2) == n / 10 / 10 % 10 && DecimalAt(n, 3) == n / 10 / 10 / 10 % 10
  {
    DecimalNext(n, 0);
    DecimalNext(n / 10, 0);
    DecimalNext(n / 10 / 10, 0);
    DecimalNext(n / 10, 1);
    DecimalNext(n, 1);
    DecimalNext(n, 2);
  }

  lemma DecimalNext(n: nat, place: nat)
    ensures DecimalAt(n, 0) == n % 10 && DecimalAt(n, place + 1) == DecimalAt(n / 10, place)
  {}

  lemma FourPlaces(n: nat, p: nat, q: nat, r: nat, s: nat, rest: nat)
    requires p < 10 && q < 10 && r < 10 && s < 10
    requires n == 10 * (10 * (10 * (10 * rest + s) + r) + q) + p
    ensures n % 100 / 10 == q && n % 1000 / 100 == r && n % 10000 / 1000 == s
  {
    TwoPlaces(n, 10 * rest + s, r, 10 * q + p);
    ThreePlaces(n, rest, 10 * s + r, 10 * q + p);
    QuotientOf(q, p);
  }

  lemma QuotientOf(q: nat, p: nat)
    requires p < 10
    ensures (10 * q + p) / 10 == q
  {}

  lemma TwoPlaces(n: nat, a: nat, r: nat, x: nat)
    requires x < 100 && r < 10 && n == 1000 * a + 100 * r + x
    ensures n % 100 == x && n % 1000 / 100 == r
  {
    RestOf100(10 * a + r, x);
    RestOf100(r, x);
    RestOf1000(a, 100 * r + x);
    assert n == 100 * (10 * a + r) + x && n == 1000 * a + (100 * r + x);
  }

  lemma RestOf100(q: nat, x: nat)
    requires x < 100
    ensures (100 * q + x) % 100 == x && (100 * q + x) / 100 == q
  {}

  lemma RestOf1000(q: nat, x: nat)
    requires x < 1000
    ensures (1000 * q + x) % 1000 == x
  {}

  lemma RestOf10000(q: nat, x: nat)
    requires x < 10000
    ensures (10000 * q + x) % 10000 == x
  {}

  lemma ThreePlaces(n: nat, rest: nat, y: nat, x: nat)
    requires x < 100 && y < 100 && n == 10000 * rest + 100 * y + x
    ensures n % 10000 / 1000 == y / 10
  {
    RestOf10000(rest, 100 * y + x);
    ThousandsOf(y, x);
  }

  lemma ThousandsOf(y: nat, x: nat)
    requires x < 100
    ensures (100 * y + x) / 1000 == y / 10
  {
    RestOf100(y, x);
  }

  /** The arrangement the program documents: which digit of the address stands where. */
  lemma DecimalsArranged(aka: Aka)
    ensures var n, middle := Decimals(aka), if aka.point != 0 then aka.point else aka.net;
            && DecimalAt(n, 7) == DecimalAt(aka.node, 1) && DecimalAt(n, 6) == DecimalAt(aka.node, 0)
            && DecimalAt(n, 5) == DecimalAt(middle, 1) && DecimalAt(n, 4) == DecimalAt(middle, 0)
            && DecimalAt(n, 3) == DecimalAt(aka.node, 2) && DecimalAt(n, 2) == DecimalAt(aka.node, 3)
            && DecimalAt(n, 1) == DecimalAt(aka.net, 2) && DecimalAt(n, 0) == DecimalAt(aka.net, 3)
  {
    hide DecimalAt, Decimals, Horner;
    DecimalsInOrder(aka);
    HornerDigits(Arranged(aka));
  }

  function Arranged(aka: Aka): (ds: seq<nat>)
    ensures |ds| == 8
  {
    var node, net, middle := aka.node, aka.net, if aka.point != 0 then aka.point else aka.net;
    [DecimalAt(node, 1), DecimalAt(node, 0), DecimalAt(middle, 1), DecimalAt(middle, 0),
     DecimalAt(node, 2), DecimalAt(node, 3), DecimalAt(net, 2), DecimalAt(net, 3)]
  }

  lemma DecimalsInOrder(aka: Aka)
    ensures Decimals(aka) == Horner(Arranged(aka)) && forall i :: 0 <= i < 8 ==> Arranged(aka)[i] < 10
  {
    hide DecimalAt, Horner;
    var middle := if aka.point != 0 then aka.point else aka.net;
    FourDecimals(aka.node);
    FourDecimals(aka.net);
    FourDecimals(middle);
    OneDecimal(aka.node, middle, aka.net);
    HornerEight(Arranged(aka));
  }

  lemma OneDecimal(node: nat, middle: nat, net: nat)
    ensures forall n: nat, place :: n in {node, middle, net} && 0 <= place < 4 ==> DecimalAt(n, place) < 10
  {
    hide DecimalAt;
    DecimalSteps(node);
    DecimalSteps(middle);
    DecimalSteps(net);
  }

  /** The counter starts from three digits of the address. */
  lemma StartCounterDigits(aka: Aka)
    ensures StartCounter(aka)
            == (10 * DecimalAt(aka.net, 1) + DecimalAt(aka.net, 0) + DecimalAt(aka.point, 2)) % 36
  {
    FourDecimals(aka.net);
    FourDecimals(aka.point);
    hide DecimalAt;
  }

  lemma HornerEight(ds: seq<nat>)
    requires |ds| == 8
    ensures Horner(ds) == ds[0] * 10000000 + ds[1] * 1000000 + ds[2] * 100000 + ds[3] * 10000
                          + ds[4] * 1000 + ds[5] * 100 + ds[6] * 10 + ds[7]
  {
    hide Horner;
    HornerNone();
    HornerNext(ds, 1);
    HornerNext(ds, 2);
    HornerNext(ds, 3);
    HornerNext(ds, 4);
    HornerNext(ds, 5);
    HornerNext(ds, 6);
    HornerNext(ds, 7);
    HornerNext(ds, 8);
    assert ds[..8] == ds && ds[..0] == [];
  }

  lemma HornerNone()
    ensures Horner([]) == 0
  {}

  lemma HornerNext(ds: seq<nat>, n: nat)
    requires 0 < n <= |ds|
    ensures Horner(ds[..n]) == 10 * Horner(ds[..n - 1]) + ds[n - 1]
  {
    assert ds[..n][..n - 1] == ds[..n - 1];
  }

  lemma HornerDigits(ds: seq<nat>)
    requires |ds| == 8 && forall i :: 0 <= i < 8 ==> ds[i] < 10
    ensures forall place :: 0 <= place < 8 ==> DecimalAt(Horner(ds), place) == ds[7 - place]
  {
    hide DecimalAt, Horner;
    forall place | 0 <= place < 8 ensures DecimalAt(Horner(ds), place) == ds[7 - place] {
      HornerDigit(ds, place);
    }
  }

  lemma Powers()
    ensures Pow36(6) == 2176782336 && Pow36(7) == EPOCH_SPAN
  {
    assert Pow36(3) == 46656;
    assert Pow36(5) == 60466176;
  }

  lemma NumeralParts(x: nat, c: nat, y: nat, d: nat)
    requires c < 36 && d < 36
    ensures Numeral(x, c) == Numeral(y, d) <==> ToDigits(x, WIDTH) == ToDigits(y, WIDTH) && c == d
  {
    hide Print, ToDigits;
    var a, b := ToDigits(x, WIDTH), ToDigits(y, WIDTH);
    PrintInjective(a, b);
    LastApart(Print(a), DigitChar(c), Print(b), DigitChar(d));
  }

  lemma LastApart(s: string, c: char, t: string, d: char)
    requires |s| == |t|
    ensures s + [c] == t + [d] <==> s == t && c == d
  {
    if s + [c] == t + [d] {
      assert s == (s + [c])[..|s|] && t == (t + [d])[..|t|];
      assert c == (s + [c])[|s|] && d == (t + [d])[|t|];
    }
  }

  lemma NumeralsEqual(x: nat, c: nat, y: nat, d: nat, distance: int)
    requires c < 36 && d < 36 && distance == x - y
    ensures Numeral(x, c) == Numeral(y, d) <==> distance % EPOCH_SPAN == 0 && c == d
  {
    hide Numeral, ToDigits;
    NumeralParts(x, c, y, d);
    Powers();
    DigitsEqual(x, y, 7);
    CongruentDifference(x, y);
  }

  lemma CongruentDifference(x: int, y: int)
    ensures x % EPOCH_SPAN == y % EPOCH_SPAN <==> (x - y) % EPOCH_SPAN == 0
  {}

  /** Two systems share a name exactly when the counters agree and the base times differ by the
      difference of the offsets, modulo 36^7. */
  lemma StemsEqual(offset: nat, e: Emission, offset': nat, f: Emission)
    requires e.counter < 36 && f.counter < 36
    ensures Stem(offset, e) == Stem(offset', f) <==>
            (e.base - f.base + 36 * (offset - offset')) % EPOCH_SPAN == 0 && e.counter == f.counter
  {
    hide Numeral;
    var distance := e.base - f.base + 36 * (offset - offset');
    NumeralsEqual(e.base + 36 * offset, e.counter, f.base + 36 * offset', f.counter, distance);
  }

  lemma NotCongruent(d: int)
    requires d != 0 && -EPOCH_SPAN < d < EPOCH_SPAN
    ensures d % EPOCH_SPAN != 0
  {}

  /** Any two systems with different offset digits keep apart while their base times differ by
      less than 36 * 21 seconds. */
  lemma DifferentOffsetsKeepApart(a: Aka, e: Emission, b: Aka, f: Emission)
    requires e.counter < 36 && f.counter < 36
    requires Decimals(a) != Decimals(b)
    requires -756 < e.base - f.base < 756
    ensures Stem(Offset(a), e) != Stem(Offset(b), f)
  {
    OffsetFits(a);
    OffsetFits(b);
    ApartByDecimals(Decimals(a), e, Decimals(b), f);
  }

  lemma ApartByDecimals(m: nat, e: Emission, n: nat, f: Emission)
    requires e.counter < 36 && f.counter < 36
    requires m != n && m <= 99999999 && n <= 99999999
    requires -756 < e.base - f.base < 756
    ensures Stem(m * 21, e) != Stem(n * 21, f)
  {
    hide Stem;
    StemsEqual(m * 21, e, n * 21, f);
    NotCongruent(e.base - f.base + 756 * (m - n));
  }

  lemma TwoDigits(x: nat)
    ensures x % 100 / 10 * 100000 + x % 10 * 10000 == 10000 * (x % 100)
  {
    var m := x % 100;
    DivModUnique(x, 10, 10 * (x / 100) + m / 10, m % 10);
  }

  lemma PointOffsets(a: Aka, b: Aka)
    requires a.net == b.net && a.node == b.node && a.point != 0 && b.point != 0
    ensures Offset(a) - Offset(b) == 210000 * (a.point % 100 - b.point % 100)
  {
    TwoDigits(a.point);
    TwoDigits(b.point);
  }

  /** Two points of one node share a name exactly when their base times differ by 7,560,000
      seconds for each step between the last two digits of their point numbers, modulo 36^7. */
  lemma PointStems(a: Aka, e: Emission, b: Aka, f: Emission)
    requires e.counter < 36 && f.counter < 36
    requires a.net == b.net && a.node == b.node && a.point != 0 && b.point != 0
    ensures Stem(Offset(a), e) == Stem(Offset(b), f) <==>
            && (e.base - f.base + 7560000 * (a.point % 100 - b.point % 100)) % EPOCH_SPAN == 0
            && e.counter == f.counter
  {
    hide Stem, Offset;
    PointOffsets(a, b);
    StemsEqual(Offset(a), e, Offset(b), f);
  }

  /** So different points of one node do not clash within 7,560,000 seconds, and neighbours do
      clash after exactly that long. */
  lemma PointsKeepApart(a: Aka, e: Emission, b: Aka, f: Emission)
    requires e.counter < 36 && f.counter < 36
    requires a.net == b.net && a.node == b.node && a.point != 0 && b.point != 0
    requires a.point % 100 != b.point % 100
    ensures -7560000 < e.base - f.base < 7560000 ==> Stem(Offset(a), e) != Stem(Offset(b), f)
    ensures e.base - f.base == 7560000 && b.point % 100 == a.point % 100 + 1 && e.counter == f.counter
            ==> Stem(Offset(a), e) == Stem(Offset(b), f)
  {
    hide Stem, Offset;
    PointStems(a, e, b, f);
    StepsApart(e.base - f.base, a.point % 100, b.point % 100);
  }

  lemma StepsApart(d: int, p: int, q: int)
    requires 0 <= p < 100 && 0 <= q < 100 && p != q
    ensures -7560000 < d < 7560000 ==> (d + 7560000 * (p - q)) % EPOCH_SPAN != 0
  {
    if -7560000 < d < 7560000 {
      NotCongruent(d + 7560000 * (p - q));
    }
  }
}
