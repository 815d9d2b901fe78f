/** Lists of groups: a text is split at delimiters in place, and lists are copied into one block. */
module Groups {

  predicate IsDelimiter(c: char) {
    c == ' ' || c == '\t' || c == ','
  }

  predicate IsWord(s: string) {
    s != "" && forall i :: 0 <= i < |s| ==> !IsDelimiter(s[i])
  }

  /** The words of a text, character by character. */
  function Words(s: string): (r: seq<string>)
    ensures s != "" && !IsDelimiter(s[0]) ==> r != []
  {
    if s == "" then []
    else if IsDelimiter(s[0]) then Words(s[1..])
    else if |s| == 1 || IsDelimiter(s[1]) then [[s[0]]] + Words(s[1..])
    else
      var r := Words(s[1..]);
      [[s[0]] + r[0]] + r[1..]
  }

  /** A word that ends at a delimiter or with the text. */
  lemma {:induction false} FirstWord(word: string, rest: string)
    requires IsWord(word) && (rest == "" || IsDelimiter(rest[0]))
    ensures Words(word + rest) == [word] + Words(rest)
  {
    var s := word + rest;
    if |word| == 1 {
      assert s[1..] == rest && word == [s[0]];
    } else {
      assert s[1..] == word[1..] + rest && s[1] == word[1];
      FirstWord(word[1..], rest);
      assert word == [s[0]] + word[1..];
    }
  }

  /** A delimiter separates the words on its two sides. */
  lemma {:induction false} WordsSplit(a: string, d: char, b: string)
    requires IsDelimiter(d)
    ensures Words(a + [d] + b) == Words(a) + Words(b)
  {
    var s := a + [d] + b;
    if a == "" {
      assert s[1..] == b;
    } else {
      assert s[1..] == a[1..] + [d] + b;
      WordsSplit(a[1..], d, b);
    }
  }

  /** So words are what lies between delimiters, without the empty pieces. */
  lemma WordsOfPieces(a: string, d: char, b: string)
    requires IsDelimiter(d) && (a == "" || IsWord(a))
    ensures Words(a + [d] + b) == (if a == "" then [] else [a]) + Words(b) && Words(a) == if a == "" then [] else [a]
  {
    WordsSplit(a, d, b);
    if a != "" {
      FirstWord(a, "");
      assert a + "" == a;
    }
  }

  /** Blanks, tabs and commas separate, whatever stands on their two sides, and nothing else does. */
  lemma SeparatesExactly(d: char)
    ensures (forall a, b :: Words(a + [d] + b) == Words(a) + Words(b)) <==> d == ' ' || d == '\t' || d == ','
  {
    if IsDelimiter(d) {
      forall a, b ensures Words(a + [d] + b) == Words(a) + Words(b) {
        WordsSplit(a, d, b);
      }
    } else {
      WordsOfPieces("x", ' ', "");
      WordsOfPieces("x" + [d] + "x", ' ', "");
      assert Words("x" + [d] + "x") != Words("x") + Words("x");
    }
  }

  /* ---- The two passes ---- */

  method SkipDelimiters(s: string, from: nat) returns (p: nat)
    requires from <= |s|
    ensures from <= p <= |s| && (p < |s| ==> !IsDelimiter(s[p])) && (from < |s| && IsDelimiter(s[from]) ==> p > from)
    ensures Words(s[p..]) == Words(s[from..])
  {
    p := from;
    while p < |s| && IsDelimiter(s[p])
      invariant from <= p <= |s| && Words(s[p..]) == Words(s[from..])
      invariant p == from || from < |s|
    {
      assert s[p..][1..] == s[p + 1..];
      p := p + 1;
    }
  }

  method SkipWord(s: string, from: nat) returns (p: nat)
    requires from < |s| && !IsDelimiter(s[from])
    ensures from < p <= |s| && IsWord(s[from..p]) && (p < |s| ==> IsDelimiter(s[p]))
    ensures Words(s[from..]) == [s[from..p]] + Words(s[p..])
  {
    hide Words;
    p := from;
    while p < |s| && !IsDelimiter(s[p])
      invariant from <= p <= |s| && forall i :: from <= i < p ==> !IsDelimiter(s[i])
    {
      p := p + 1;
    }
    assert s[from..] == s[from..p] + s[p..];
    FirstWord(s[from..p], s[p..]);
  }

  /** The counting pass, behind the first delimiters. */
  method CountWords(s: string) returns (count: nat)
    requires s != "" && !IsDelimiter(s[0])
    ensures count == |Words(s)|
  {
    hide Words;
    var p := 0;
    count := 0;
    assert s[0..] == s;
    NoWords();
    while p < |s|
      invariant p <= |s| && (p < |s| ==> !IsDelimiter(s[p]))
      invariant count + |Words(s[p..])| == |Words(s)|
    {
      count := count + 1;
      p := SkipWord(s, p);
      p := SkipDelimiters(s, p);
    }
    assert s[p..] == "";
  }

  lemma NoWords()
    ensures Words("") == []
  {}

  /** A string with its terminator lies at this place of a block. */
  predicate IsString(t: seq<char>, at: nat, s: string) {
    && at + |s| < |t| && t[at..at + |s|] == s && t[at + |s|] == '\0'
    && forall i :: 0 <= i < |s| ==> s[i] != '\0'
  }

  /** The strings at these places are these. */
  predicate AreStrings(t: seq<char>, places: seq<nat>, strings: seq<string>) {
    |places| == |strings| && forall k :: 0 <= k < |places| ==> IsString(t, places[k], strings[k])
  }

  /** Only one string can be read at a place. */
  lemma OneString(t: seq<char>, at: nat, s: string, r: string)
    requires IsString(t, at, s) && IsString(t, at, r)
    ensures s == r
  {
    forall i | at <= i < at + |r| ensures t[i] != '\0' {
      assert t[at..at + |r|][i - at] == r[i - at];
    }
    forall i | at <= i < at + |s| ensures t[i] != '\0' {
      assert t[at..at + |s|][i - at] == s[i - at];
    }
    assert |s| == |r|;
  }

  /** Only one list of strings can be read at a list of places. */
  lemma OneList(t: seq<char>, places: seq<nat>, strings: seq<string>)
    requires AreStrings(t, places, strings)
    ensures forall others :: AreStrings(t, places, others) <==> others == strings
  {
    hide IsString;
    forall others | AreStrings(t, places, others) ensures others == strings {
      forall k | 0 <= k < |places| ensures others[k] == strings[k] {
        OneString(t, places[k], others[k], strings[k]);
      }
    }
  }

  /** Ending a word behind all that are done. */
  lemma NextString(t: seq<char>, places: seq<nat>, strings: seq<string>, p: nat, q: nat, word: string)
    requires AreStrings(t, places, strings)
    requires forall k :: 0 <= k < |places| ==> places[k] + |strings[k]| < p
    requires p <= q < |t| && t[p..q] == word && '\0' !in word
    ensures AreStrings(t[q := '\0'], places + [p], strings + [word])
  {
    var t' := t[q := '\0'];
    assert t'[p..p + |word|] == word;
    forall k | 0 <= k < |places| ensures IsString(t', places[k], strings[k]) {
      assert IsString(t, places[k], strings[k]);
      assert t'[places[k]..places[k] + |strings[k]|] == t[places[k]..places[k] + |strings[k]|];
    }
  }

  /** The splitting pass: a copy of the text, in which the delimiter behind each word becomes its end,
      and the places of the words, as many as were counted. */
  method SplitWords(s: string, count: nat) returns (text: array<char>, grp: array<nat>)
    requires s != "" && !IsDelimiter(s[0]) && '\0' !in s && count == |Words(s)|
    ensures fresh(text) && fresh(grp) && text.Length == |s| + 1 && grp.Length == count
    ensures AreStrings(text[..], grp[..], Words(s))
  {
    hide Words, AreStrings;
    grp := new nat[count];
    text := new char[|s| + 1](i requires 0 <= i <= |s| => if i < |s| then s[i] else '\0');
    assert text[..] == s + ['\0'];
    var p, n := 0, 0;
    ghost var done: seq<string> := [];
    assert s[0..] == s;
    NoWords();
    NoStrings();
    while p < |s|
      invariant Split(s, text[..], grp[..], p, n, done)
    {
      p, done := SplitNext(s, text, grp, p, n, done);
      n := n + 1;
    }
    assert s[p..] == "" && done + [] == done;
    assert grp[..n] == grp[..];
  }

  /** The words before a place are split off, and the text behind it is as it was. */
  ghost predicate Split(s: string, text: seq<char>, grp: seq<nat>, p: nat, n: nat, done: seq<string>) {
    && p <= |s| && (p < |s| ==> !IsDelimiter(s[p])) && |text| == |s| + 1 && text[p..] == s[p..] + ['\0']
    && n == |done| <= |grp| == |Words(s)| && Words(s) == done + Words(s[p..])
    && AreStrings(text, grp[..n], done)
    && (p < |s| ==> forall k :: 0 <= k < n ==> grp[k] + |done[k]| < p)
  }

  method SplitNext(s: string, text: array<char>, grp: array<nat>, p: nat, n: nat, ghost done: seq<string>)
    returns (r: nat, ghost done': seq<string>)
    requires '\0' !in s && p < |s| && Split(s, text[..], grp[..], p, n, done)
    modifies text, grp
    ensures p < r && Split(s, text[..], grp[..], r, n + 1, done')
  {
    hide Words, AreStrings;
    var q := SkipWord(s, p);
    r := SkipDelimiters(s, q);
    ghost var t, places := text[..], grp[..n];
    assert t[p..q] == t[p..][..q - p] == s[p..q];
    NextString(t, places, done, p, q, s[p..q]);
    grp[n] := p;
    if q < |s| {
      text[q] := '\0';
    }
    assert grp[..n] == places;
    assert text[..] == t[q := '\0'] && grp[..n + 1] == places + [p];
    assert text[r..] == t[p..][r - p..] == s[r..] + ['\0'];
    done' := done + [s[p..q]];
    assert done + ([s[p..q]] + Words(s[r..])) == done' + Words(s[r..]);
    forall k | 0 <= k <= n && r < |s| ensures grp[k] + |done'[k]| < r {
      assert k < n ==> grp[k] == places[k] && done'[k] == done[k];
    }
  }

  /** The words of a text, if it has any: both passes agree on them. */
  method ParseGrp(token: string) returns (found: bool, text: array<char>, grp: array<nat>)
    requires '\0' !in token
    ensures fresh(text) && fresh(grp)
    ensures found <==> Words(token) != []
    ensures found ==> AreStrings(text[..], grp[..], Words(token))
    ensures found ==> forall words :: AreStrings(text[..], grp[..], words) <==> words == Words(token)
  {
    hide Words, AreStrings;
    text, grp := new char[0], new nat[0];
    var p := SkipDelimiters(token, 0);
    assert token[0..] == token;
    NoWords();
    found := p < |token|;
    if found {
      var s := token[p..];
      StartsWithWord(s);
      var count := CountWords(s);
      text, grp := SplitWords(s, count);
      OneList(text[..], grp[..], Words(s));
    } else {
      assert token[p..] == "";
    }
  }

  lemma StartsWithWord(s: string)
    requires s != "" && !IsDelimiter(s[0])
    ensures Words(s) != []
  {}

  /* ---- Copies ---- */

  function BlockSize(grps: seq<string>): nat {
    if grps == [] then 0 else BlockSize(grps[..|grps| - 1]) + |grps[|grps| - 1]| + 1
  }

  method StrLen(t: array<char>, at: nat, ghost s: string) returns (n: nat)
    requires IsString(t[..], at, s)
    ensures n == |s|
  {
    n := 0;
    while t[at + n] != '\0'
      invariant n <= |s| && t[..][at..at + |s|] == s
      decreases |s| - n
    {
      assert n < |s|;
      n := n + 1;
    }
  }

  method StrCopy(t: array<char>, at: nat, s: string)
    requires at + |s| < t.Length && '\0' !in s
    modifies t
    ensures IsString(t[..], at, s) && t[..at] == old(t[..at])
  {
    forall i | 0 <= i < |s| {
      t[at + i] := s[i];
    }
    t[at + |s|] := '\0';
    assert t[..][at..at + |s|] == s;
  }

  /** A copy of a list in one block: every string is where the one before it ends, and the block is
      full at the end. There is no copy of an empty list. */
  method CopyGroups(grps: seq<string>) returns (block: array?<char>, dst: array?<nat>)
    requires forall i :: 0 <= i < |grps| ==> '\0' !in grps[i]
    ensures grps == [] <==> block == null
    ensures grps == [] <==> dst == null
    ensures grps != [] ==>
              && fresh(block) && fresh(dst) && block.Length == BlockSize(grps)
              && (forall strings :: AreStrings(block[..], dst[..], strings) <==> strings == grps)
              && dst.Length == |grps| && dst[0] == 0 && dst[|grps| - 1] + |grps[|grps| - 1]| + 1 == block.Length
  {
    hide AreStrings, BlockSize;
    if grps == [] {
      return null, null;
    }
    NoStrings();
    var len := 0;
    for i := 0 to |grps|
      invariant len == BlockSize(grps[..i])
    {
      BlockNext(grps, i);
      len := len + |grps[i]| + 1;
    }
    assert grps[..|grps|] == grps;
    block := new char[len](_ => '\0');
    dst := new nat[|grps|];
    for i := 0 to |grps|
      invariant Copied(block[..], dst[..], grps, i)
      invariant block.Length == BlockSize(grps)
    {
      CopyNext(block, dst, grps, i);
    }
    assert dst[..|grps|] == dst[..];
    OneList(block[..], dst[..], grps);
  }

  lemma NoStrings()
    ensures BlockSize([]) == 0 && forall t: seq<char> :: AreStrings(t, [], [])
  {}

  /** The first `i` strings are copied, one behind the other. */
  ghost predicate Copied(t: seq<char>, dst: seq<nat>, grps: seq<string>, i: nat) {
    && i <= |grps| == |dst| && AreStrings(t, dst[..i], grps[..i])
    && (forall k :: 0 <= k < i ==> dst[k] + |grps[k]| < BlockSize(grps[..i]))
    && (i > 0 ==> dst[0] == 0 && dst[i - 1] + |grps[i - 1]| + 1 == BlockSize(grps[..i]))
  }

  method CopyNext(block: array<char>, dst: array<nat>, grps: seq<string>, i: nat)
    requires i < |grps| && '\0' !in grps[i]
    requires Copied(block[..], dst[..], grps, i) && block.Length == BlockSize(grps)
    modifies block, dst
    ensures Copied(block[..], dst[..], grps, i + 1)
  {
    hide BlockSize, IsString;
    var at := 0;
    if i > 0 {
      LastString(block[..], dst[..], grps, i);
      var n := StrLen(block, dst[i - 1], grps[i - 1]);
      at := dst[i - 1] + n + 1;
    } else {
      NoStrings();
      assert grps[..0] == [];
    }
    BlockNext(grps, i);
    ghost var t, places := block[..], dst[..i];
    dst[i] := at;
    StrCopy(block, at, grps[i]);
    StringsStay(t, block[..], places, grps[..i], at);
    assert dst[..i] == places;
    assert dst[..i + 1] == places + [at] && grps[..i + 1] == grps[..i] + [grps[i]];
  }

  lemma LastString(t: seq<char>, dst: seq<nat>, grps: seq<string>, i: nat)
    requires 0 < i && Copied(t, dst, grps, i)
    ensures IsString(t, dst[i - 1], grps[i - 1])
  {
    assert dst[..i][i - 1] == dst[i - 1] && grps[..i][i - 1] == grps[i - 1];
  }

  lemma {:induction false} BlockNext(grps: seq<string>, i: nat)
    requires i < |grps|
    ensures BlockSize(grps[..i + 1]) == BlockSize(grps[..i]) + |grps[i]| + 1 <= BlockSize(grps)
  {
    assert grps[..i + 1][..i] == grps[..i];
    if i + 1 < |grps| {
      BlockNext(grps[..|grps| - 1], i);
      assert grps[..|grps| - 1][..i + 1] == grps[..i + 1] && grps[..|grps| - 1][..i] == grps[..i];
    } else {
      assert grps[..i + 1] == grps;
    }
  }

  /** Strings in front of a place do not change with what is behind it. */
  lemma StringsStay(t: seq<char>, u: seq<char>, places: seq<nat>, strings: seq<string>, at: nat)
    requires AreStrings(t, places, strings) && at <= |t| == |u| && t[..at] == u[..at]
    requires forall k :: 0 <= k < |places| ==> places[k] + |strings[k]| < at
    ensures AreStrings(u, places, strings)
  {
    hide IsString;
    forall k | 0 <= k < |places| ensures IsString(u, places[k], strings[k]) {
      StringStays(t, u, places[k], strings[k], at);
    }
  }

  lemma StringStays(t: seq<char>, u: seq<char>, place: nat, s: string, at: nat)
    requires IsString(t, place, s) && at <= |t| == |u| && t[..at] == u[..at] && place + |s| < at
    ensures IsString(u, place, s)
  {
    forall k | place <= k <= place + |s| ensures u[k] == t[k] {
      assert u[..at][k] == t[..at][k];
    }
  }
}
