/**
  Ruby's awk-style `String#split(' ')` and `Array#join(" ")` over byte strings:
  split cuts at runs of ASCII whitespace, drops leading and trailing whitespace
  and never yields an empty token; join puts one space between tokens.
*/
module Tokens {
  import opened Basics

  const Space: byte := 0x20

  /** The bytes the awk-style split treats as separators: space, \t, \n, \v, \f, \r. */
  predicate IsWhitespace(b: byte) {
    b == Space || (0x09 <= b <= 0x0D)
  }

  /** What the split can yield: a non-empty run of non-whitespace bytes. */
  predicate IsToken(t: seq<byte>) {
    |t| > 0 && forall i :: 0 <= i < |t| ==> !IsWhitespace(t[i])
  }

  lemma NoWhitespaceAppend(a: seq<byte>, b: seq<byte>)
    requires forall i :: 0 <= i < |a| ==> !IsWhitespace(a[i])
    requires forall i :: 0 <= i < |b| ==> !IsWhitespace(b[i])
    ensures forall i :: 0 <= i < |a + b| ==> !IsWhitespace((a + b)[i])
  {
  }

  predicate AllWhitespace(s: seq<byte>) {
    forall i :: 0 <= i < |s| ==> IsWhitespace(s[i])
  }

  /** Length of the longest prefix of `s` without whitespace. */
  function TokenEnd(s: seq<byte>): (k: nat)
    ensures k <= |s|
    ensures forall i :: 0 <= i < k ==> !IsWhitespace(s[i])
    ensures k < |s| ==> IsWhitespace(s[k])
    decreases |s|
  {
    if |s| == 0 || IsWhitespace(s[0]) then 0 else 1 + TokenEnd(s[1..])
  }

  /** `s.split(' ')`. */
  function Split(s: seq<byte>): (ts: seq<seq<byte>>)
    ensures forall i :: 0 <= i < |ts| ==> IsToken(ts[i])
    ensures ts == [] <==> AllWhitespace(s)
    decreases |s|
  {
    if |s| == 0 then []
    else if IsWhitespace(s[0]) then Split(s[1..])
    else
      var k := TokenEnd(s);
      [s[..k]] + Split(s[k..])
  }

  /** `ts.join(" ")`: it adds nothing but the spaces between the tokens. */
  function Join(ts: seq<seq<byte>>): (s: seq<byte>)
    ensures forall b :: b in s ==> b == Space || exists t :: t in ts && b in t
    ensures forall t :: t in ts ==> forall b :: b in t ==> b in s
    decreases |ts|
  {
    if |ts| == 0 then []
    else if |ts| == 1 then ts[0]
    else
      assert ts == [ts[0]] + ts[1..];
      ts[0] + [Space] + Join(ts[1..])
  }

  /** A string that split-then-join leaves alone: no whitespace at either end,
      and every whitespace byte is a single space between two tokens. The
      neighbour of position `i` is named `j` so that the quantifier does not
      produce new indices for itself. */
  predicate IsCanonical(s: seq<byte>) {
    && (|s| > 0 ==> !IsWhitespace(s[0]) && !IsWhitespace(s[|s| - 1]))
    && (forall i :: 0 <= i < |s| && IsWhitespace(s[i]) ==> s[i] == Space)
    && (forall i, j :: 0 <= i < |s| && 0 <= j < |s| && j == i + 1 && IsWhitespace(s[i]) ==> !IsWhitespace(s[j]))
  }

  lemma TokenEndAt(t: seq<byte>, rest: seq<byte>)
    requires IsToken(t)
    requires rest == [] || IsWhitespace(rest[0])
    ensures TokenEnd(t + rest) == |t|
  {
    var s := t + rest;
    var k := TokenEnd(s);
    assert forall i :: 0 <= i < |t| ==> s[i] == t[i];
    assert |s| > |t| ==> s[|t|] == rest[0];
  }

  /** Splitting a space-joined list of tokens gives the list back: join keeps
      the number and the order of the tokens. */
  lemma {:induction false} SplitJoin(ts: seq<seq<byte>>)
    requires forall i :: 0 <= i < |ts| ==> IsToken(ts[i])
    ensures Split(Join(ts)) == ts
    decreases |ts|
  {
    if |ts| == 1 {
      var t := ts[0];
      TokenEndAt(t, []);
      assert t + [] == t;
      assert t[|t|..] == [];
    } else if |ts| > 1 {
      var j := Join(ts[1..]);
      JoinIsCanonical(ts[1..]);
      SplitCons(ts[0], j);
      SplitJoin(ts[1..]);
      assert ts == [ts[0]] + ts[1..];
    }
  }

  /** Joining non-empty tokens never leaves a stray separator. */
  lemma {:induction false} JoinIsCanonical(ts: seq<seq<byte>>)
    requires forall i :: 0 <= i < |ts| ==> IsToken(ts[i])
    ensures IsCanonical(Join(ts))
    ensures Join(ts) == [] <==> ts == []
    decreases |ts|
  {
    if |ts| > 1 {
      JoinIsCanonical(ts[1..]);
      var t := ts[0];
      var j := Join(ts[1..]);
      var s := t + [Space] + j;
      assert Join(ts) == s;
      forall i | 0 <= i < |s| && IsWhitespace(s[i])
        ensures s[i] == Space
      {
        if i > |t| {
          assert s[i] == j[i - |t| - 1];
        }
      }
      forall i, i' | 0 <= i < |s| && 0 <= i' < |s| && i' == i + 1 && IsWhitespace(s[i])
        ensures !IsWhitespace(s[i'])
      {
        if i == |t| {
          assert s[i'] == j[0];
        } else if i > |t| {
          assert s[i] == j[i - |t| - 1];
          assert s[i'] == j[i - |t|];
        }
      }
      assert s[|s| - 1] == j[|j| - 1];
    }
  }

  lemma JoinCons(t: seq<byte>, ts: seq<seq<byte>>)
    requires ts != []
    ensures Join([t] + ts) == t + [Space] + Join(ts)
  {
    assert ([t] + ts)[1..] == ts;
  }

  lemma SplitFirst(s: seq<byte>)
    requires |s| > 0 && !IsWhitespace(s[0])
    ensures Split(s) == [s[..TokenEnd(s)]] + Split(s[TokenEnd(s)..])
  {
  }

  lemma SplitWholeToken(s: seq<byte>)
    requires |s| > 0 && TokenEnd(s) == |s|
    ensures Split(s) == [s]
  {
    SplitFirst(s);
    assert s[..|s|] == s && s[|s|..] == [];
  }

  lemma SplitSkip(s: seq<byte>, k: nat)
    requires k < |s| && IsWhitespace(s[k])
    ensures Split(s[k..]) == Split(s[k + 1..])
  {
    assert s[k..][1..] == s[k + 1..];
  }

  /** In a canonical string a token that does not end the string is followed by
      exactly one space and then by the next token. */
  lemma SpaceAfterToken(s: seq<byte>, k: nat)
    requires IsCanonical(s) && k == TokenEnd(s) && k < |s|
    ensures k + 1 < |s| && s[k] == Space && !IsWhitespace(s[k + 1])
    ensures IsToken(s[..k]) && !IsWhitespace(s[k + 1..][0])
  {
    assert s[k] == Space && k != |s| - 1;
    assert !IsWhitespace(s[k + 1]);
  }

  lemma SplitAround(s: seq<byte>, k: nat)
    requires k < |s| && s[k] == Space
    ensures s == s[..k] + [Space] + s[k + 1..]
  {
    assert s == s[..k] + s[k..];
    assert s[k..] == [Space] + s[k + 1..];
  }

  /** Splitting a token, one space and a string that starts with a token yields
      that token and then the tokens of the string. */
  lemma SplitCons(t: seq<byte>, rest: seq<byte>)
    requires IsToken(t) && |rest| > 0 && !IsWhitespace(rest[0])
    ensures Split(t + [Space] + rest) == [t] + Split(rest)
  {
    var x := t + [Space] + rest;
    assert x == t + ([Space] + rest);
    TokenEndAt(t, [Space] + rest);
    assert x[..|t|] == t && x[|t|..] == [Space] + rest && x[|t| + 1..] == rest;
    SplitFirst(x);
    SplitSkip(x, |t|);
  }

  lemma JoinSplitCons(t: seq<byte>, rest: seq<byte>)
    requires IsToken(t) && |rest| > 0 && !IsWhitespace(rest[0])
    requires Join(Split(rest)) == rest
    ensures Join(Split(t + [Space] + rest)) == t + [Space] + rest
  {
    SplitCons(t, rest);
    SplitFirst(rest);
    JoinCons(t, Split(rest));
  }

  /** The tokens split yields are exactly what joining them again would split back. */
  lemma {:induction false} JoinSplit(s: seq<byte>)
    requires IsCanonical(s)
    ensures Join(Split(s)) == s
    decreases |s|
  {
    if |s| > 0 {
      var k := TokenEnd(s);
      if k == |s| {
        SplitWholeToken(s);
      } else {
        var t, rest := s[..k], s[k + 1..];
        SpaceAfterToken(s, k);
        SplitAround(s, k);
        CanonicalSuffix(s, k + 1);
        JoinSplit(rest);
        JoinSplitCons(t, rest);
      }
    }
  }

  lemma CanonicalSuffix(s: seq<byte>, j: nat)
    requires IsCanonical(s) && 0 < j <= |s|
    requires j < |s| ==> !IsWhitespace(s[j])
    ensures IsCanonical(s[j..])
  {
  }

  /** `TokenEnd` looks no further than the first whitespace byte. */
  lemma TokenEndBeforeWhitespace(a: seq<byte>, c: seq<byte>)
    requires |c| > 0 && IsWhitespace(c[0])
    ensures TokenEnd(a + c) == TokenEnd(a)
    decreases |a|
  {
    if |a| > 0 && !IsWhitespace(a[0]) {
      assert (a + c)[1..] == a[1..] + c;
      TokenEndBeforeWhitespace(a[1..], c);
    }
  }

  /** Any whitespace byte is a cut: the tokens on its two sides are split
      separately, so a run of whitespace of any kind and length separates
      tokens just as one space does. */
  lemma {:induction false} SplitAtWhitespace(a: seq<byte>, w: byte, b: seq<byte>)
    requires IsWhitespace(w)
    ensures Split(a + [w] + b) == Split(a) + Split(b)
    decreases |a|
  {
    var x := a + [w] + b;
    if |a| == 0 {
      assert x == [w] + b && x[1..] == b;
    } else if IsWhitespace(a[0]) {
      assert x[1..] == a[1..] + [w] + b;
      SplitAtWhitespace(a[1..], w, b);
    } else {
      var k := TokenEnd(a);
      assert x == a + ([w] + b);
      TokenEndBeforeWhitespace(a, [w] + b);
      assert x[..k] == a[..k];
      assert x[k..] == a[k..] + [w] + b;
      SplitAtWhitespace(a[k..], w, b);
    }
  }

  /** Split-then-join leaves a string unchanged exactly when it is canonical,
      and joining the tokens of any string and splitting again gives the same
      tokens back. */
  lemma JoinSplitIdentity(s: seq<byte>)
    ensures Join(Split(s)) == s <==> IsCanonical(s)
    ensures Split(Join(Split(s))) == Split(s)
  {
    JoinIsCanonical(Split(s));
    SplitJoin(Split(s));
    if IsCanonical(s) {
      JoinSplit(s);
    }
  }

  /** A byte that is absent from a string is absent from every token of its split. */
  lemma {:induction false} SplitKeepsAbsent(s: seq<byte>, b: byte)
    requires b !in s
    ensures forall i :: 0 <= i < |Split(s)| ==> b !in Split(s)[i]
    decreases |s|
  {
    if |s| > 0 {
      if IsWhitespace(s[0]) {
        SplitKeepsAbsent(s[1..], b);
      } else {
        var k := TokenEnd(s);
        assert b !in s[k..] && b !in s[..k];
        SplitKeepsAbsent(s[k..], b);
      }
    }
  }
}
