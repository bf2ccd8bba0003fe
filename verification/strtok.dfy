/** Splitting a string at delimiters, as src/string.c does it in place. */
module SplitSpec {

  /** Positions of the delimiters in `s`, in order. */
  function Cuts(s: seq<char>, delim: seq<char>): (r: seq<nat>)
    ensures forall i :: 0 <= i < |r| ==> r[i] < |s|
  {
    if s == [] then []
    else
      var n := |s| - 1;
      Cuts(s[..n], delim) + if s[n] in delim then [n] else []
  }

  /** The cuts are exactly the delimiters, from left to right. */
  lemma {:induction false} CutsAreDelimiters(s: seq<char>, delim: seq<char>)
    ensures forall i {:trigger Cuts(s, delim)[i]} :: 0 <= i < |Cuts(s, delim)| ==> s[Cuts(s, delim)[i]] in delim
    ensures forall i, j :: 0 <= i < j < |Cuts(s, delim)| ==> Cuts(s, delim)[i] < Cuts(s, delim)[j]
    ensures forall k :: 0 <= k < |s| && s[k] in delim ==> k in Cuts(s, delim)
  {
    if s != [] {
      CutsAreDelimiters(s[..|s| - 1], delim);
    }
  }

  /** Where token `j` starts and ends. */
  function Start(cuts: seq<nat>, j: nat): nat
    requires j <= |cuts|
  {
    if j == 0 then 0 else cuts[j - 1] + 1
  }

  function End(s: seq<char>, cuts: seq<nat>, j: nat): nat
    requires j <= |cuts|
  {
    if j < |cuts| then cuts[j] else |s|
  }

  lemma TokenBounds(s: seq<char>, delim: seq<char>, j: nat)
    requires j <= |Cuts(s, delim)|
    ensures var cuts := Cuts(s, delim);
      Start(cuts, j) <= End(s, cuts, j) <= |s| && (j > 0 ==> End(s, cuts, j - 1) + 1 == Start(cuts, j))
  {
    CutsAreDelimiters(s, delim);
  }

  function Token(s: seq<char>, delim: seq<char>, j: nat): seq<char>
    requires j <= |Cuts(s, delim)|
  {
    TokenBounds(s, delim, j);
    s[Start(Cuts(s, delim), j)..End(s, Cuts(s, delim), j)]
  }

  /** Every cut lies before the start or not before the end of a token. */
  lemma BetweenCuts(s: seq<char>, delim: seq<char>, i: nat, j: nat)
    requires i < |Cuts(s, delim)| && j <= |Cuts(s, delim)|
    ensures var cuts := Cuts(s, delim); cuts[i] < Start(cuts, j) || End(s, cuts, j) <= cuts[i]
  {
    CutsAreDelimiters(s, delim);
  }

  /** No token contains a delimiter. */
  lemma TokenIsDelimiterFree(s: seq<char>, delim: seq<char>, j: nat)
    requires j <= |Cuts(s, delim)|
    ensures forall c :: c in Token(s, delim, j) ==> c !in delim
  {
    var cuts := Cuts(s, delim);
    TokenBounds(s, delim, j);
    CutsAreDelimiters(s, delim);
    forall k | Start(cuts, j) <= k < End(s, cuts, j)
      ensures s[k] !in delim
    {
      if s[k] in delim {
        var i :| 0 <= i < |cuts| && cuts[i] == k;
        BetweenCuts(s, delim, i, j);
      }
    }
  }

  /** The tokens up to token `j` with the removed delimiters put back between them. */
  function Joined(s: seq<char>, delim: seq<char>, j: nat): seq<char>
    requires j <= |Cuts(s, delim)|
  {
    if j == 0 then Token(s, delim, 0)
    else Joined(s, delim, j - 1) + [s[Cuts(s, delim)[j - 1]]] + Token(s, delim, j)
  }

  lemma PutBack(s: seq<char>, c: nat, e: nat)
    requires c < e <= |s|
    ensures s[..c] + [s[c]] + s[c + 1..e] == s[..e]
  {}

  lemma {:induction false} JoinedIsPrefix(s: seq<char>, delim: seq<char>, j: nat)
    requires j <= |Cuts(s, delim)|
    ensures End(s, Cuts(s, delim), j) <= |s| && Joined(s, delim, j) == s[..End(s, Cuts(s, delim), j)]
  {
    var cuts := Cuts(s, delim);
    TokenBounds(s, delim, j);
    hide Cuts;
    if j > 0 {
      JoinedIsPrefix(s, delim, j - 1);
      PutBack(s, cuts[j - 1], End(s, cuts, j));
    }
  }

  /** Putting the delimiters back restores the string. */
  lemma JoinRestores(s: seq<char>, delim: seq<char>)
    ensures Joined(s, delim, |Cuts(s, delim)|) == s
  {
    JoinedIsPrefix(s, delim, |Cuts(s, delim)|);
    assert s[..|s|] == s;
  }

  /** The string that starts at `p` and ends at the next terminator. */
  function CString(a: seq<char>, p: nat): seq<char>
    decreases |a| - p
  {
    if p >= |a| || a[p] == '\0' then [] else [a[p]] + CString(a, p + 1)
  }

  lemma {:induction false} CStringIs(a: seq<char>, p: nat, e: nat)
    requires p <= e < |a| && a[e] == '\0'
    requires forall k :: p <= k < e ==> a[k] != '\0'
    ensures CString(a, p) == a[p..e]
    decreases e - p
  {
    if p < e {
      CStringIs(a, p + 1, e);
    }
  }

  /** The string with its delimiters overwritten. */
  function Blanked(s: seq<char>, delim: seq<char>): (r: seq<char>)
    ensures |r| == |s|
  {
    seq(|s|, i requires 0 <= i < |s| => if s[i] in delim then '\0' else s[i])
  }

  /** A delimiter-free piece that a delimiter or the end follows reads as a C string. */
  lemma BlankedPiece(s: seq<char>, delim: seq<char>, rest: seq<char>, p: nat, e: nat)
    requires '\0' !in s && rest != [] && rest[0] == '\0' && p <= e <= |s|
    requires e < |s| ==> s[e] in delim
    requires forall c :: c in s[p..e] ==> c !in delim
    ensures CString(Blanked(s, delim) + rest, p) == s[p..e]
  {
    var a := Blanked(s, delim) + rest;
    assert a[e] == '\0';
    forall k | p <= k < e
      ensures a[k] == s[k] && a[k] != '\0'
    {
      assert s[p..e][k - p] == s[k];
    }
    CStringIs(a, p, e);
    assert a[p..e] == s[p..e];
  }

  /** Read as a C string, the token at each start is the token. */
  lemma TokensAreTerminated(s: seq<char>, delim: seq<char>, rest: seq<char>, j: nat)
    requires '\0' !in s && rest != [] && rest[0] == '\0' && j <= |Cuts(s, delim)|
    ensures CString(Blanked(s, delim) + rest, Start(Cuts(s, delim), j)) == Token(s, delim, j)
  {
    var cuts := Cuts(s, delim);
    TokenBounds(s, delim, j);
    TokenIsDelimiterFree(s, delim, j);
    CutsAreDelimiters(s, delim);
    BlankedPiece(s, delim, rest, Start(cuts, j), End(s, cuts, j));
  }
}

module Strings {
  import opened SplitSpec

  /** `strlen` of the string at the front of `a`. */
  method Strlen(a: array<char>) returns (n: nat)
    requires exists k :: 0 <= k < a.Length && a[k] == '\0'
    ensures n < a.Length && a[n] == '\0' && '\0' !in a[..n]
  {
    ghost var k :| 0 <= k < a.Length && a[k] == '\0';
    var i := 0;
    while a[i] != '\0'
      invariant i <= k && '\0' !in a[..i]
      decreases k - i
    {
      i := i + 1;
    }
    n := i;
  }

  /** The inner loop of `strtok`. */
  method IsDelimiter(c: char, delim: seq<char>) returns (r: bool)
    ensures r <==> c in delim
  {
    var id := 0;
    while id < |delim|
      invariant id <= |delim| && c !in delim[..id]
    {
      if c == delim[id] {
        return true;
      }
      id := id + 1;
    }
    r := false;
  }

  /** The first pass of `strtok`. */
  method Count(str: array<char>, delim: seq<char>, numS: nat) returns (length: nat)
    requires numS <= str.Length
    ensures length == |Cuts(str[..numS], delim)| + 1
  {
    length := 1;
    var i := 0;
    while i < numS
      invariant i <= numS && length == 1 + |Cuts(str[..i], delim)|
    {
      assert str[..i + 1][..i] == str[..i];
      var found := IsDelimiter(str[i], delim);
      if found {
        length := length + 1;
      }
      i := i + 1;
    }
  }

  /** A prefix of the string has no more delimiters than the string. */
  lemma {:induction false} CutsGrow(s: seq<char>, delim: seq<char>, i: nat)
    requires i <= |s|
    ensures |Cuts(s[..i], delim)| <= |Cuts(s, delim)|
    decreases |s| - i
  {
    if i < |s| {
      assert s[..i + 1][..i] == s[..i];
      CutsGrow(s, delim, i + 1);
    } else {
      assert s[..i] == s;
    }
  }

  lemma CutsStep(s: seq<char>, delim: seq<char>, i: nat)
    requires i < |s|
    ensures Cuts(s[..i + 1], delim) == Cuts(s[..i], delim) + if s[i] in delim then [i] else []
  {
    assert s[..i + 1][..i] == s[..i];
  }

  lemma CutsEnd(s: seq<char>, delim: seq<char>)
    ensures Cuts(s[..0], delim) == [] && s[..|s|] == s
  {}

  /** The second pass of `strtok`: it finds exactly as many tokens as the first one made room for. */
  method Cut(str: array<char>, delim: seq<char>, numS: nat, tokens: array<nat>)
    requires numS <= str.Length
    requires tokens.Length == |Cuts(str[..numS], delim)| + 1
    modifies str, tokens
    ensures forall j :: 0 <= j < tokens.Length ==> tokens[j] == Start(old(Cuts(str[..numS], delim)), j)
    ensures str[..] == old(Blanked(str[..numS], delim) + str[numS..])
  {
    ghost var s: seq<char>, cuts: seq<nat> := str[..numS], [];
    CutsEnd(s, delim);
    hide Cuts;
    tokens[0] := 0;
    var n := 1;
    var i := 0;
    while i < numS
      invariant i <= numS && n == 1 + |cuts| && cuts == Cuts(s[..i], delim)
      invariant forall j :: 0 <= j < n ==> j < tokens.Length && tokens[j] == Start(cuts, j)
      invariant forall k :: 0 <= k < str.Length ==> str[k] == if k < i && s[k] in delim then '\0' else old(str[k])
    {
      CutsGrow(s, delim, i + 1);
      CutsStep(s, delim, i);
      var found := IsDelimiter(str[i], delim);
      if found {
        str[i] := '\0';
        tokens[n] := i + 1;
        n := n + 1;
        cuts := cuts + [i];
      }
      i := i + 1;
    }
  }

  /**
   `strtok`: counts the tokens, then cuts the string in place.  Each token is the terminated,
   delimiter-free piece of the input between two delimiters.
   */
  method Strtok(str: array<char>, delim: seq<char>) returns (tokens: array<nat>, length: nat, ghost s: seq<char>)
    requires exists k :: 0 <= k < str.Length && str[k] == '\0'
    modifies str
    ensures |s| < str.Length && s == old(str[..])[..|s|] && '\0' !in s && old(str[|s|]) == '\0'
    ensures fresh(tokens) && tokens.Length == length == |Cuts(s, delim)| + 1
    ensures forall j :: 0 <= j < length ==> tokens[j] == Start(Cuts(s, delim), j)
    ensures str[..] == Blanked(s, delim) + old(str[..])[|s|..]
    ensures forall j :: 0 <= j < length ==> CString(str[..], tokens[j]) == Token(s, delim, j)
  {
    hide Cuts, Blanked, CString, Token;
    var numS := Strlen(str);
    s := str[..numS];
    ghost var rest := str[numS..];
    length := Count(str, delim, numS);
    tokens := new nat[length];
    Cut(str, delim, numS, tokens);
    forall j | 0 <= j < length
      ensures CString(str[..], tokens[j]) == Token(s, delim, j)
    {
      TokensAreTerminated(s, delim, rest, j);
    }
  }
}
