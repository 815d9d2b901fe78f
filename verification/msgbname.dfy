/** Area names as file names: reserved characters are written as a percent sign and their code. */
module MsgbNames {
  import opened Wrappers
  import opened StatLinks

  type Name = seq<Byte>

  function HexDigit(n: nat): Byte
    requires n < 16
  {
    (if n < 10 then n + '0' as int else n - 10 + 'a' as int) as char
  }

  function Hi(c: Byte): Byte {
    HexDigit(c as int / 16)
  }

  function Lo(c: Byte): Byte {
    HexDigit(c as int % 16)
  }

  /** The code as it is printed: a byte above 127 is a negative number and gets eight digits, one below
      16 gets a single digit. */
  function Code(c: Byte): Name {
    if c as int >= 128 then "ffffff" + [Hi(c), Lo(c)]
    else if c as int >= 16 then [Hi(c), Lo(c)]
    else [Lo(c)]
  }

  function Piece(reserved: Name, c: Byte): Name {
    if c in reserved then ['%'] + Code(c) else [c]
  }

  function Encoded(reserved: Name, s: Name): Name {
    if s == [] then [] else Piece(reserved, s[0]) + Encoded(reserved, s[1..])
  }

  const DEFAULT_RESERVED: Name := "\"*/:;<=>?\\|%`'&+"

  method MakeMsgbFileName(notValidFNChars: Option<Name>, s: Name) returns (name: Option<Name>)
    ensures var reserved := if notValidFNChars == None then DEFAULT_RESERVED else notValidFNChars.value;
            name == if s == [] then None else Some(Encoded(reserved, s))
  {
    if notValidFNChars == None {
      name := Append(DEFAULT_RESERVED, s);
    } else {
      name := Append(notValidFNChars.value, s);
    }
  }

  /** The file name is appended to character by character; an empty area name has none. */
  method Append(str: Name, s: Name) returns (name: Option<Name>)
    ensures name == if s == [] then None else Some(Encoded(str, s))
  {
    hide Encoded, Piece;
    name := None;
    var text: Name := [];
    assert s[0..] == s;
    for i := 0 to |s|
      invariant text + Encoded(str, s[i..]) == Encoded(str, s)
      invariant name == if i == 0 then None else Some(text)
    {
      EncodedNext(str, s, i, text);
      PieceOf(str, s[i]);
      text := text + (if s[i] in str then ['%'] + Code(s[i]) else [s[i]]);
      name := Some(text);
    }
    EncodedEnd(str, s, text);
  }

  lemma PieceOf(reserved: Name, c: Byte)
    ensures Piece(reserved, c) == if c in reserved then ['%'] + Code(c) else [c]
  {}

  lemma EncodedNext(reserved: Name, s: Name, i: nat, text: Name)
    requires i < |s|
    ensures text + Encoded(reserved, s[i..]) == text + Piece(reserved, s[i]) + Encoded(reserved, s[i + 1..])
  {
    assert s[i..][1..] == s[i + 1..];
  }

  lemma EncodedEnd(reserved: Name, s: Name, text: Name)
    ensures text + Encoded(reserved, s[|s|..]) == text
  {}

  /* ---- When the area name can be told from the file name ---- */

  predicate Touches(reserved: Name, s: Name) {
    exists k :: 0 <= k < |s| && s[k] in reserved
  }

  /** Unless the percent sign is reserved itself, no code can be written with characters that are not
      reserved; and where one code begins another, neither can what the longer one adds. */
  predicate Separates(reserved: Name) {
    && ('%' in reserved || forall i :: 0 <= i < |reserved| ==> Touches(reserved, Code(reserved[i])))
    && forall i, j :: 0 <= i < |reserved| && 0 <= j < |reserved| && Code(reserved[i]) < Code(reserved[j]) ==>
         Touches(reserved, Code(reserved[j])[|Code(reserved[i])|..])
  }

  /** The reserved character with the longest code that this text begins with. */
  function Longest(reserved: Name, t: Name): (r: Option<Byte>)
    ensures r.Some? ==> r.value in reserved && Code(r.value) <= t
    ensures forall i :: 0 <= i < |reserved| && Code(reserved[i]) <= t ==>
              r.Some? && |Code(reserved[i])| <= |Code(r.value)|
  {
    if reserved == [] then None
    else
      var r := Longest(reserved[1..], t);
      if Code(reserved[0]) <= t && (r == None || |Code(r.value)| < |Code(reserved[0])|) then Some(reserved[0]) else r
  }

  function Decoded(reserved: Name, t: Name): Name {
    if t == [] then []
    else if t[0] == '%' && Longest(reserved, t[1..]) != None then
      var c := Longest(reserved, t[1..]).value;
      [c] + Decoded(reserved, t[1 + |Code(c)|..])
    else [t[0]] + Decoded(reserved, t[1..])
  }

  lemma CodesDiffer(c: Byte, d: Byte)
    requires Code(c) == Code(d)
    ensures c == d
  {
    var x, y := Code(c), Code(d);
    assert x[|x| - 1] == Lo(c) && y[|y| - 1] == Lo(d);
    HexDigitsDiffer(c as int % 16, d as int % 16);
    if |x| > 1 {
      assert x[|x| - 2] == Hi(c) && y[|y| - 2] == Hi(d);
      HexDigitsDiffer(c as int / 16, d as int / 16);
    }
    assert c as int == c as int / 16 * 16 + c as int % 16;
    assert d as int == d as int / 16 * 16 + d as int % 16;
  }

  lemma HexDigitsDiffer(m: nat, n: nat)
    requires m < 16 && n < 16 && HexDigit(m) == HexDigit(n)
    ensures m == n
  {}

  lemma NoPercent(c: Byte)
    ensures '%' !in Code(c) && Code(c) != []
  {
    assert Hi(c) != '%' && Lo(c) != '%';
  }

  lemma PlainStart(reserved: Name, s: Name)
    requires Encoded(reserved, s) != [] && Encoded(reserved, s)[0] != '%'
    ensures s != [] && s[0] !in reserved && Encoded(reserved, s) == [s[0]] + Encoded(reserved, s[1..])
  {}

  /** What an encoded name begins with, up to a percent sign, holds no reserved characters. */
  lemma {:induction false} RawStart(reserved: Name, s: Name, p: Name)
    requires p <= Encoded(reserved, s) && '%' !in p
    ensures !Touches(reserved, p)
  {
    if p == [] {
    } else {
      assert p[0] == Encoded(reserved, s)[0];
      PlainStart(reserved, s);
      assert p[1..] <= Encoded(reserved, s[1..]);
      RawStart(reserved, s[1..], p[1..]);
      assert forall k :: 0 < k < |p| ==> p[k] == p[1..][k - 1];
    }
  }

  lemma {:induction false} RawEncoded(reserved: Name, s: Name)
    requires !Touches(reserved, s)
    ensures Encoded(reserved, s) == s
  {
    if s == [] {
    } else {
      assert s[0] !in reserved;
      assert forall k :: 0 <= k < |s| - 1 ==> s[1..][k] == s[k + 1];
      RawEncoded(reserved, s[1..]);
    }
  }

  /** Decoding undoes encoding. */
  lemma {:induction false} DecodeEncoded(reserved: Name, s: Name)
    requires Separates(reserved)
    ensures Decoded(reserved, Encoded(reserved, s)) == s
  {
    hide Separates, Decoded, Encoded;
    if s == [] {
      NothingDecoded(reserved);
    } else {
      DecodeEncoded(reserved, s[1..]);
      DecodedNext(reserved, s);
      assert [s[0]] + s[1..] == s;
    }
  }

  lemma NothingDecoded(reserved: Name)
    ensures Decoded(reserved, Encoded(reserved, [])) == []
  {}

  lemma DecodedNext(reserved: Name, s: Name)
    requires Separates(reserved) && s != []
    ensures Decoded(reserved, Encoded(reserved, s)) == [s[0]] + Decoded(reserved, Encoded(reserved, s[1..]))
  {
    hide Separates, Code, Longest, Decoded;
    var rest := Encoded(reserved, s[1..]);
    if s[0] in reserved {
      LongestIsOwn(reserved, s[0], s[1..]);
      DecodedCode(reserved, s[0], rest);
      assert Encoded(reserved, s) == ['%'] + (Code(s[0]) + rest);
    } else {
      NoCodeFollows(reserved, s[0], s[1..]);
      DecodedRaw(reserved, s[0], rest);
    }
  }

  lemma DecodedCode(reserved: Name, c: Byte, rest: Name)
    requires Longest(reserved, Code(c) + rest) == Some(c)
    ensures Decoded(reserved, ['%'] + (Code(c) + rest)) == [c] + Decoded(reserved, rest)
  {
    hide Code, Longest;
    var t := ['%'] + (Code(c) + rest);
    assert t[1..] == Code(c) + rest && t[1 + |Code(c)|..] == rest;
  }

  lemma DecodedRaw(reserved: Name, c: Byte, rest: Name)
    requires c == '%' ==> Longest(reserved, rest) == None
    ensures Decoded(reserved, [c] + rest) == [c] + Decoded(reserved, rest)
  {
    hide Longest;
    assert ([c] + rest)[1..] == rest;
  }

  /** Behind a percent sign that begins a code, no longer code can be read. */
  lemma LongestIsOwn(reserved: Name, c: Byte, s: Name)
    requires Separates(reserved) && c in reserved
    ensures Longest(reserved, Code(c) + Encoded(reserved, s)) == Some(c)
  {
    hide Code, Encoded;
    var rest := Encoded(reserved, s);
    var i :| 0 <= i < |reserved| && reserved[i] == c;
    assert Code(reserved[i]) <= Code(c) + rest;
    var r := Longest(reserved, Code(c) + rest).value;
    var j :| 0 <= j < |reserved| && reserved[j] == r;
    TwoPrefixes(Code(c), Code(r), rest);
    if |Code(r)| == |Code(c)| {
      CodesDiffer(r, c);
    } else {
      assert Code(reserved[i]) < Code(reserved[j]);
      NoPercent(r);
      RawStart(reserved, s, Code(r)[|Code(c)|..]);
    }
  }

  lemma TwoPrefixes(p: Name, q: Name, rest: Name)
    requires q <= p + rest && |p| <= |q|
    ensures p <= q && (|p| == |q| ==> p == q) && q[|p|..] <= rest
  {
    assert p == (p + rest)[..|p|] == q[..|p|];
    assert q[|p|..] == (p + rest)[..|q|][|p|..] == rest[..|q| - |p|];
  }

  lemma NoCodeFollows(reserved: Name, c: Byte, s: Name)
    requires Separates(reserved) && c !in reserved
    ensures c == '%' ==> Longest(reserved, Encoded(reserved, s)) == None
  {
    hide Code;
    var r := Longest(reserved, Encoded(reserved, s));
    if c == '%' && r.Some? {
      NoPercent(r.value);
      RawStart(reserved, s, Code(r.value));
    }
  }

  /** Without that, a reserved character and its own code as text get the same file name, */
  lemma Clash(reserved: Name, c: Byte)
    requires c in reserved && '%' !in reserved && !Touches(reserved, Code(c))
    ensures Encoded(reserved, [c]) == Encoded(reserved, ['%'] + Code(c))
  {
    hide Code;
    assert forall k :: 0 < k <= |Code(c)| ==> (['%'] + Code(c))[k] == Code(c)[k - 1];
    RawEncoded(reserved, ['%'] + Code(c));
    OneEncoded(reserved, c);
  }

  /** and so do a character with a longer code, and one with a shorter code and the rest as text. */
  lemma PrefixClash(reserved: Name, c: Byte, e: Byte)
    requires c in reserved && e in reserved && Code(c) < Code(e)
    requires !Touches(reserved, Code(e)[|Code(c)|..])
    ensures Encoded(reserved, [c] + Code(e)[|Code(c)|..]) == Encoded(reserved, [e])
  {
    hide Code;
    var more := Code(e)[|Code(c)|..];
    RawEncoded(reserved, more);
    assert ([c] + more)[1..] == more;
    OneEncoded(reserved, e);
    assert Code(e) == Code(c) + more;
  }

  lemma OneEncoded(reserved: Name, c: Byte)
    requires c in reserved
    ensures Encoded(reserved, [c]) == ['%'] + Code(c)
  {
    hide Code;
    assert Encoded(reserved, []) == [];
  }

  /** Different area names have different file names exactly when the reserved characters separate. */
  lemma NamesKeptApart(reserved: Name)
    ensures Separates(reserved)
            <==> forall s: Name, t: Name :: Encoded(reserved, s) == Encoded(reserved, t) ==> s == t
  {
    hide Code, Encoded, Separates;
    if Separates(reserved) {
      forall s: Name, t: Name | Encoded(reserved, s) == Encoded(reserved, t) ensures s == t {
        DecodeEncoded(reserved, s);
        DecodeEncoded(reserved, t);
      }
    } else {
      var s, t := TwoNames(reserved);
    }
  }

  lemma TwoNames(reserved: Name) returns (s: Name, t: Name)
    requires !Separates(reserved)
    ensures s != t && Encoded(reserved, s) == Encoded(reserved, t)
  {
    hide Code, Encoded;
    if !('%' in reserved || forall i :: 0 <= i < |reserved| ==> Touches(reserved, Code(reserved[i]))) {
      var i :| 0 <= i < |reserved| && !Touches(reserved, Code(reserved[i]));
      Clash(reserved, reserved[i]);
      NoPercent(reserved[i]);
      s, t := [reserved[i]], ['%'] + Code(reserved[i]);
      assert |s| < |t|;
    } else {
      var i, j :| 0 <= i < |reserved| && 0 <= j < |reserved| && Code(reserved[i]) < Code(reserved[j])
                  && !Touches(reserved, Code(reserved[j])[|Code(reserved[i])|..]);
      PrefixClash(reserved, reserved[i], reserved[j]);
      s, t := [reserved[i]] + Code(reserved[j])[|Code(reserved[i])|..], [reserved[j]];
      assert |t| < |s|;
    }
  }

  predicate TwoDigits(reserved: Name) {
    forall i :: 0 <= i < |reserved| ==> 16 <= reserved[i] as int < 128
  }

  /** Where all codes have two digits, no code begins another. */
  lemma TwoDigitsSeparate(reserved: Name)
    requires TwoDigits(reserved)
    ensures Separates(reserved)
            <==> '%' in reserved
                 || forall i :: 0 <= i < |reserved| ==> Hi(reserved[i]) in reserved || Lo(reserved[i]) in reserved
  {
    forall i | 0 <= i < |reserved|
      ensures |Code(reserved[i])| == 2
      ensures Touches(reserved, Code(reserved[i])) <==> Hi(reserved[i]) in reserved || Lo(reserved[i]) in reserved
    {
      assert Code(reserved[i])[0] == Hi(reserved[i]) && Code(reserved[i])[1] == Lo(reserved[i]);
    }
  }

  /** How a hexadecimal number is read. */
  function HexRead(s: Name): int {
    if s == [] then 0
    else
      var c := s[|s| - 1];
      16 * HexRead(s[..|s| - 1]) + if '0' <= c <= '9' then c as int - '0' as int else c as int - 'a' as int + 10
  }

  /** A code is the number of the character in as few lower-case hexadecimal digits as there are, with
      2^32 added where the character is negative. */
  lemma CodeReads(c: Byte)
    ensures HexRead(Code(c)) == if c as int < 128 then c as int else c as int - 0x100 + 0x1_0000_0000
    ensures |Code(c)| > 1 ==> Code(c)[0] != '0'
  {
    NoHex();
    SixFs();
    HexOfDigit(c as int / 16);
    hide HexRead, HexDigit;
    if c as int >= 128 {
      TwoHexDigits("ffffff", c);
    } else if c as int >= 16 {
      TwoHexDigits([], c);
      assert [] + [Hi(c), Lo(c)] == [Hi(c), Lo(c)];
    } else {
      HexNext([], Lo(c));
      HexOfDigit(c as int);
      assert [] + [Lo(c)] == [Lo(c)];
    }
  }

  lemma TwoHexDigits(s: Name, c: Byte)
    ensures HexRead(s + [Hi(c), Lo(c)]) == 0x100 * HexRead(s) + c as int
  {
    hide HexRead, HexDigit;
    HexNext(s, Hi(c));
    HexNext(s + [Hi(c)], Lo(c));
    HexOfDigit(c as int / 16);
    HexOfDigit(c as int % 16);
    assert s + [Hi(c), Lo(c)] == s + [Hi(c)] + [Lo(c)];
  }

  lemma HexNext(s: Name, c: Byte)
    ensures HexRead(s + [c])
            == 16 * HexRead(s) + if '0' <= c <= '9' then c as int - '0' as int else c as int - 'a' as int + 10
  {
    assert (s + [c])[..|s|] == s;
  }

  lemma HexOfDigit(n: nat)
    requires n < 16
    ensures var c := HexDigit(n); n == if '0' <= c <= '9' then c as int - '0' as int else c as int - 'a' as int + 10
    ensures n > 0 ==> HexDigit(n) != '0'
  {}

  lemma NoHex()
    ensures HexRead([]) == 0
  {}

  lemma SixFs()
    ensures HexRead("ffffff") == 0xff_ffff
  {
    NoHex();
    hide HexRead;
    HexNext([], 'f');
    HexNext("f", 'f');
    HexNext("ff", 'f');
    HexNext("fff", 'f');
    HexNext("ffff", 'f');
    HexNext("fffff", 'f');
    assert [] + ['f'] == "f" && "f" + ['f'] == "ff" && "ff" + ['f'] == "fff";
    assert "fff" + ['f'] == "ffff" && "ffff" + ['f'] == "fffff" && "fffff" + ['f'] == "ffffff";
  }

  /** With the default set no file name holds a delimiter of paths, a wildcard or a quote, and names
      without such characters stay as they are. */
  lemma {:induction false} DefaultSafe(s: Name)
    ensures var t := Encoded(DEFAULT_RESERVED, s);
            && (forall i :: 0 <= i < |t| ==> !Unsafe(t[i]))
            && (t == s <==> forall i :: 0 <= i < |s| ==> !Unsafe(s[i]) && s[i] != '%')
  {
    hide Piece, Unsafe;
    if s == [] {
    } else {
      DefaultSafe(s[1..]);
      PieceSafe(s[0]);
      NotShorter(DEFAULT_RESERVED, s[1..]);
      var t, p := Encoded(DEFAULT_RESERVED, s), Piece(DEFAULT_RESERVED, s[0]);
      assert t[|p|..] == Encoded(DEFAULT_RESERVED, s[1..]) && t[..|p|] == p;
      assert forall i :: |p| <= i < |t| ==> t[i] == t[|p|..][i - |p|];
      assert forall i :: 0 < i < |s| ==> s[i] == s[1..][i - 1];
      assert s == [s[0]] + s[1..];
    }
  }

  predicate Unsafe(c: Byte) {
    c in {'/', '\\', ':', '*', '?', '"', '<', '>', '|', ';', '=', '`', '\'', '&', '+'}
  }

  lemma PieceSafe(c: Byte)
    ensures var p := Piece(DEFAULT_RESERVED, c);
            && (forall i :: 0 <= i < |p| ==> !Unsafe(p[i]))
            && if Unsafe(c) || c == '%' then |p| > 1 else p == [c]
  {
    hide Code;
    DefaultReserves(c);
    CodeSafe(c);
  }

  lemma DefaultReserves(c: Byte)
    ensures c in DEFAULT_RESERVED <==> Unsafe(c) || c == '%'
  {}

  lemma CodeSafe(c: Byte)
    ensures Code(c) != [] && forall i :: 0 <= i < |Code(c)| ==> !Unsafe(Code(c)[i])
  {}

  lemma {:induction false} NotShorter(reserved: Name, s: Name)
    ensures |Encoded(reserved, s)| >= |s|
  {
    if s == [] {
    } else {
      NotShorter(reserved, s[1..]);
    }
  }

  lemma DefaultSeparates()
    ensures TwoDigits(DEFAULT_RESERVED) && Separates(DEFAULT_RESERVED)
  {
    assert DEFAULT_RESERVED[11] == '%';
    TwoDigitsSeparate(DEFAULT_RESERVED);
  }
}
