/** Keyword tables: looked up by binary search where they are sorted, entry by entry where not. */
module Tokens {
  import opened Text

  datatype Token = Token(token: string, id: int)

  predicate Increasing(s: seq<Token>) {
    forall i, j :: 0 <= i < j < |s| ==> Strcmp(s[i].token, s[j].token) < 0
  }

  /** The number of the first entry with this key, or -1. */
  function IdOf(s: seq<Token>, key: string): int {
    if s == [] then -1 else if s[0].token == key then s[0].id else IdOf(s[1..], key)
  }

  lemma {:induction false} IdOfFirst(s: seq<Token>, key: string, k: nat)
    requires k <= |s| && (forall i :: 0 <= i < k ==> s[i].token != key)
    requires k < |s| ==> s[k].token == key
    ensures IdOf(s, key) == if k < |s| then s[k].id else -1
  {
    if k == 0 {
    } else {
      IdOfFirst(s[1..], key, k - 1);
    }
  }

  /** Neighbours in order mean all in order. */
  lemma {:induction false} NeighboursIncrease(s: seq<Token>)
    requires forall i :: 0 < i < |s| ==> Strcmp(s[i - 1].token, s[i].token) < 0
    ensures Increasing(s)
  {
    if |s| <= 1 {
    } else {
      var n := |s| - 1;
      NeighboursIncrease(s[..n]);
      forall i | 0 <= i < n ensures Strcmp(s[i].token, s[n].token) < 0 {
        if i < n - 1 {
          assert Strcmp(s[..n][i].token, s[..n][n - 1].token) < 0;
          StrcmpChains(s[i].token, s[n - 1].token, s[n].token);
        }
      }
      forall i, j | 0 <= i < j < |s| ensures Strcmp(s[i].token, s[j].token) < 0 {
        assert j < n ==> s[..n][i] == s[i] && s[..n][j] == s[j];
      }
    }
  }

  class TokenList {
    var tokens: seq<Token>
    var ntokens: nat
    var bsearchable: bool

    ghost predicate Valid()
      reads this
    {
      ntokens == |tokens| && (bsearchable <==> Increasing(tokens))
    }

    constructor ()
      ensures Valid()
    {
      tokens, ntokens, bsearchable := [], 0, true;
    }

    /** Takes a table of keywords and finds out whether it is sorted without duplicates. */
    method MakeTokenList(src: seq<Token>)
      modifies this
      ensures Valid() && tokens == src
      ensures bsearchable <==> Increasing(src)
    {
      tokens, ntokens, bsearchable := src, 0, true;
      if src == [] {
        return;
      }
      var i := 1;
      while i < |src|
        invariant 1 <= i <= |src| && tokens == src
        invariant bsearchable <==> forall k :: 0 < k < i ==> Strcmp(src[k - 1].token, src[k].token) < 0
      {
        if bsearchable && Strcmp(src[i - 1].token, src[i].token) >= 0 {
          bsearchable := false;
        }
        i := i + 1;
      }
      ntokens := i;
      if bsearchable {
        NeighboursIncrease(src);
      }
    }

    /** Both ways of searching find the first entry with the key. */
    method FindToken(key: string) returns (id: int)
      requires Valid()
      ensures id == IdOf(tokens, key)
    {
      if !bsearchable {
        for i := 0 to ntokens
          invariant forall k :: 0 <= k < i ==> tokens[k].token != key
        {
          if tokens[i].token == key {
            IdOfFirst(tokens, key, i);
            return tokens[i].id;
          }
        }
        IdOfFirst(tokens, key, ntokens);
        return -1;
      }
      id := Bsearch(key);
    }

    method Bsearch(key: string) returns (id: int)
      requires ntokens == |tokens| && Increasing(tokens)
      ensures id == IdOf(tokens, key)
    {
      var lo, hi := 0, ntokens;
      while lo < hi
        invariant lo <= hi <= ntokens
        invariant forall i :: 0 <= i < lo ==> Strcmp(tokens[i].token, key) < 0
        invariant forall i :: hi <= i < ntokens ==> Strcmp(tokens[i].token, key) > 0
      {
        var mid := (lo + hi) / 2;
        var r := Strcmp(tokens[mid].token, key);
        StrcmpEqual(tokens[mid].token, key);
        SideOf(tokens, key, mid);
        if r == 0 {
          IdOfFirst(tokens, key, mid);
          return tokens[mid].id;
        } else if r < 0 {
          lo := mid + 1;
        } else {
          hi := mid;
        }
      }
      NotFound(tokens, key);
      id := -1;
    }
  }

  lemma NotFound(s: seq<Token>, key: string)
    requires forall i :: 0 <= i < |s| ==> Strcmp(s[i].token, key) != 0
    ensures IdOf(s, key) == -1
  {
    forall i | 0 <= i < |s| ensures s[i].token != key {
      StrcmpEqual(s[i].token, key);
    }
    IdOfFirst(s, key, |s|);
  }

  /** In an increasing table everything on one side of an entry compares like it, and no other entry
      has its key. */
  lemma SideOf(s: seq<Token>, key: string, mid: nat)
    requires Increasing(s) && mid < |s|
    ensures Strcmp(s[mid].token, key) < 0 ==> forall i :: 0 <= i <= mid ==> Strcmp(s[i].token, key) < 0
    ensures Strcmp(s[mid].token, key) > 0 ==> forall i :: mid <= i < |s| ==> Strcmp(s[i].token, key) > 0
    ensures s[mid].token == key ==> forall i :: 0 <= i < mid ==> s[i].token != key
  {
    forall i | 0 <= i < mid
      ensures Strcmp(s[mid].token, key) < 0 ==> Strcmp(s[i].token, key) < 0
      ensures s[mid].token == key ==> s[i].token != key
    {
      StrcmpChains(s[i].token, s[mid].token, key);
      StrcmpEqual(s[i].token, s[mid].token);
    }
    forall i | mid < i < |s| ensures Strcmp(s[mid].token, key) > 0 ==> Strcmp(s[i].token, key) > 0 {
      StrcmpChains(s[mid].token, key, key);
      StrcmpChains(s[i].token, key, key);
      StrcmpChains(key, s[mid].token, s[i].token);
    }
  }
}
