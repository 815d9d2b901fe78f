/** Strings compared without regard to case, the order of area tags and variable names. */
module Text {

  predicate IsSpace(c: char) {
    c == ' ' || 9 <= c as int <= 13
  }

  function ToLower(c: char): char {
    if 'A' <= c <= 'Z' then c + 32 as char else c
  }

  const UPPER: string := "ABCDEFGHIJKLMNOPQRSTUVWXYZ"
  const LOWER: string := "abcdefghijklmnopqrstuvwxyz"

  /** White space is what the C locale takes for it, and only the letters have cases. */
  lemma CharacterClasses(c: char)
    ensures IsSpace(c) <==> c as int in {9, 10, 11, 12, 13, 32}
    ensures forall k :: 0 <= k < 26 ==> ToLower(UPPER[k]) == ToLower(LOWER[k]) == LOWER[k]
    ensures c !in UPPER ==> ToLower(c) == c
  {
    hide ToLower;
    LetterCases(c);
    forall k | 0 <= k < 26 ensures ToLower(UPPER[k]) == ToLower(LOWER[k]) == LOWER[k] {
      LettersAt(k);
      LetterCases(UPPER[k]);
      LetterCases(LOWER[k]);
    }
    if 'A' <= c <= 'Z' {
      LettersAt(c as int - 'A' as int);
    }
  }

  lemma LettersAt(k: int)
    requires 0 <= k < 26
    ensures UPPER[k] as int == 65 + k && LOWER[k] as int == 97 + k
  {}

  lemma LetterCases(c: char)
    ensures ToLower(c) as int == if 65 <= c as int <= 90 then c as int + 32 else c as int
  {}

  /** Negative, zero or positive, as the lower-cased strings compare. */
  function Stricmp(a: string, b: string): int {
    if a == [] then (if b == [] then 0 else -1)
    else if b == [] then 1
    else if ToLower(a[0]) != ToLower(b[0]) then (if ToLower(a[0]) < ToLower(b[0]) then -1 else 1)
    else Stricmp(a[1..], b[1..])
  }

  function Fold(s: string): string {
    if s == [] then [] else [ToLower(s[0])] + Fold(s[1..])
  }

  /** Equal in this order means equal up to case. */
  lemma {:induction false} StricmpFold(a: string, b: string)
    ensures Stricmp(a, b) == 0 <==> Fold(a) == Fold(b)
  {
    if a == [] || b == [] {
    } else {
      StricmpFold(a[1..], b[1..]);
      assert Fold(a)[0] == ToLower(a[0]) && Fold(a)[1..] == Fold(a[1..]);
      assert Fold(b)[0] == ToLower(b[0]) && Fold(b)[1..] == Fold(b[1..]);
    }
  }

  /** At this place two texts that agree before it differ, and the first is smaller there. */
  predicate SmallerAt(a: string, b: string, k: nat) {
    && k <= |a| && k < |b| && (forall i :: 0 <= i < k ==> ToLower(a[i]) == ToLower(b[i]))
    && (k < |a| ==> ToLower(a[k]) < ToLower(b[k]))
  }

  /** The order is that of the first place that differs, and a text comes before what continues it. */
  lemma {:induction false} StricmpExactly(a: string, b: string)
    ensures Stricmp(a, b) == 0
            <==> |a| == |b| && forall i :: 0 <= i < |a| ==> ToLower(a[i]) == ToLower(b[i])
    ensures Stricmp(a, b) < 0 <==> exists k :: SmallerAt(a, b, k)
  {
    if a == [] || b == [] {
      assert a == [] && b != [] ==> SmallerAt(a, b, 0);
    } else if ToLower(a[0]) != ToLower(b[0]) {
      assert ToLower(a[0]) < ToLower(b[0]) ==> SmallerAt(a, b, 0);
    } else {
      StricmpExactly(a[1..], b[1..]);
      assert forall i :: 0 < i < |a| ==> a[i] == a[1..][i - 1];
      assert forall i :: 0 < i < |b| ==> b[i] == b[1..][i - 1];
      if k: nat :| SmallerAt(a[1..], b[1..], k) {
        assert SmallerAt(a, b, k + 1);
      }
      if k: nat :| SmallerAt(a, b, k) {
        assert SmallerAt(a[1..], b[1..], k - 1);
      }
    }
  }

  lemma {:induction false} FoldAt(s: string)
    ensures |Fold(s)| == |s| && forall i :: 0 <= i < |s| ==> Fold(s)[i] == ToLower(s[i])
  {
    if s == [] {
    } else {
      FoldAt(s[1..]);
    }
  }

  lemma {:induction false} StricmpReflexive(a: string)
    ensures Stricmp(a, a) == 0
  {
    if a == [] {
    } else {
      StricmpReflexive(a[1..]);
    }
  }

  lemma {:induction false} StricmpFlips(a: string, b: string)
    ensures Stricmp(b, a) == -Stricmp(a, b)
  {
    if a == [] || b == [] {
    } else {
      StricmpFlips(a[1..], b[1..]);
    }
  }

  lemma {:induction false} StricmpChains(a: string, b: string, c: string)
    ensures Stricmp(a, b) <= 0 && Stricmp(b, c) <= 0 ==>
              Stricmp(a, c) == if Stricmp(a, b) == 0 then Stricmp(b, c) else -1
    ensures Stricmp(b, c) == 0 ==> Stricmp(a, c) == Stricmp(a, b)
  {
    if a == [] || b == [] || c == [] {
    } else {
      StricmpChains(a[1..], b[1..], c[1..]);
    }
  }

  /** The order of the characters themselves. */
  function Strcmp(a: string, b: string): int {
    if a == [] then (if b == [] then 0 else -1)
    else if b == [] then 1
    else if a[0] != b[0] then (if a[0] < b[0] then -1 else 1)
    else Strcmp(a[1..], b[1..])
  }

  lemma {:induction false} StrcmpEqual(a: string, b: string)
    ensures Strcmp(a, b) == 0 <==> a == b
  {
    if a == [] || b == [] {
    } else {
      StrcmpEqual(a[1..], b[1..]);
      assert a == [a[0]] + a[1..] && b == [b[0]] + b[1..];
    }
  }

  /** The first character that differs decides, and a text comes before what continues it. */
  lemma {:induction false} StrcmpExactly(a: string, b: string, k: nat)
    requires k <= |a| && k < |b| && a[..k] == b[..k] && (k < |a| ==> a[k] != b[k])
    ensures Strcmp(a, b) < 0 <==> k == |a| || a[k] < b[k]
  {
    if k == 0 {
    } else {
      assert a[0] == a[..k][0] && b[0] == b[..k][0];
      assert a[1..][..k - 1] == a[..k][1..] && b[1..][..k - 1] == b[..k][1..];
      StrcmpExactly(a[1..], b[1..], k - 1);
    }
  }

  lemma {:induction false} StrcmpChains(a: string, b: string, c: string)
    ensures Strcmp(a, b) < 0 && Strcmp(b, c) < 0 ==> Strcmp(a, c) < 0
    ensures Strcmp(a, b) > 0 <==> Strcmp(b, a) < 0
  {
    if a == [] || b == [] {
    } else {
      StrcmpChains(a[1..], b[1..], if c == [] then [] else c[1..]);
    }
  }
}
