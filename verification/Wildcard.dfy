/** The wildcard matcher `strmatch` (library/src/string.c): `*` stands for any run of characters, `?` for one. */
module Wildcard {

  /** The character at a pointer into a C string: the terminator ends it. */
  function CharAt(s: string, i: nat): char {
    if i < |s| then s[i] else '\0'
  }

  predicate IsCString(s: string) {
    forall i :: 0 <= i < |s| ==> s[i] != '\0'
  }

  /** The meaning of a pattern. */
  predicate Matches(wild: string, s: string)
    decreases |wild| + |s|
  {
    if wild == "" then s == ""
    else if wild[0] == '*' then Matches(wild[1..], s) || (s != "" && Matches(wild, s[1..]))
    else s != "" && (wild[0] == s[0] || wild[0] == '?') && Matches(wild[1..], s[1..])
  }

  /** Whether the pattern matches some rest of the string that starts at `from` or later. */
  ghost predicate MatchesFrom(wild: string, s: string, from: nat) {
    exists k :: from <= k <= |s| && Matches(wild, s[k..])
  }

  // ---------- what the meaning amounts to ----------

  /** `*` matches any run: the rest of the pattern matches some rest of the string. */
  lemma {:induction false} StarMatchesAnyRun(wild: string, s: string)
    ensures Matches("*" + wild, s) <==> MatchesFrom(wild, s, 0)
    decreases |s|
  {
    var w := "*" + wild;
    assert w[1..] == wild;
    assert s[0..] == s;
    if s != "" {
      StarMatchesAnyRun(wild, s[1..]);
      forall k | 1 <= k <= |s| ensures s[1..][k - 1..] == s[k..] {
      }
      if MatchesFrom(wild, s[1..], 0) {
        var k :| 0 <= k <= |s[1..]| && Matches(wild, s[1..][k..]);
        assert Matches(wild, s[k + 1..]);
      }
      if MatchesFrom(wild, s, 0) && !Matches(wild, s) {
        var k :| 0 <= k <= |s| && Matches(wild, s[k..]);
        assert Matches(wild, s[1..][k - 1..]);
      }
    }
  }

  /** A pattern without `*` matches exactly the strings of its length that agree with it but for `?`. */
  lemma {:induction false} PlainMatches(wild: string, s: string)
    requires forall i :: 0 <= i < |wild| ==> wild[i] != '*'
    ensures Matches(wild, s) <==> |s| == |wild| && forall i :: 0 <= i < |s| ==> wild[i] == s[i] || wild[i] == '?'
    decreases |wild|
  {
    if wild != "" && s != "" {
      PlainMatches(wild[1..], s[1..]);
      assert forall i :: 0 < i < |wild| ==> wild[i] == wild[1..][i - 1];
      assert forall i :: 0 < i < |s| ==> s[i] == s[1..][i - 1];
      if |s| == |wild| {
        assert (forall i :: 0 <= i < |s| ==> wild[i] == s[i] || wild[i] == '?') ==>
            forall i :: 0 <= i < |s[1..]| ==> wild[1..][i] == s[1..][i] || wild[1..][i] == '?';
      }
    }
  }

  /** Patterns concatenate: a pattern in two parts matches the strings that split into a match for each. */
  lemma {:induction false} MatchesConcat(u: string, v: string, s: string)
    ensures Matches(u + v, s) <==> exists k :: 0 <= k <= |s| && Matches(u, s[..k]) && Matches(v, s[k..])
    decreases |u| + |s|
  {
    if Matches(u + v, s) {
      var _ := SplitMatch(u, v, s);
    }
    forall k | 0 <= k <= |s| && Matches(u, s[..k]) && Matches(v, s[k..]) ensures Matches(u + v, s) {
      JoinMatch(u, v, s, k);
    }
  }

  lemma {:induction false} SplitMatch(u: string, v: string, s: string) returns (k: nat)
    requires Matches(u + v, s)
    ensures k <= |s| && Matches(u, s[..k]) && Matches(v, s[k..])
    decreases |u| + |s|
  {
    if u == "" {
      assert u + v == v && s[0..] == s;
      return 0;
    }
    assert (u + v)[1..] == u[1..] + v;
    if u[0] == '*' && Matches(u[1..] + v, s) {
      k := SplitMatch(u[1..], v, s);
    } else {
      var j := SplitMatch(if u[0] == '*' then u else u[1..], v, s[1..]);
      k := j + 1;
      assert s[..k][1..] == s[1..][..j] && s[k..] == s[1..][j..];
    }
  }

  lemma {:induction false} JoinMatch(u: string, v: string, s: string, k: nat)
    requires k <= |s| && Matches(u, s[..k]) && Matches(v, s[k..])
    ensures Matches(u + v, s)
    decreases |u| + k
  {
    if u == "" {
      assert u + v == v && s[0..] == s;
    } else {
      assert (u + v)[1..] == u[1..] + v;
      if u[0] == '*' && Matches(u[1..], s[..k]) {
        JoinMatch(u[1..], v, s, k);
      } else {
        assert s[..k][1..] == s[1..][..k - 1] && s[k..] == s[1..][k - 1..];
        JoinMatch(if u[0] == '*' then u else u[1..], v, s[1..], k - 1);
      }
    }
  }

  // ---------- the greedy matcher ----------

  /** `Matches` of the rest of the pattern from `w` on and the rest of the string from `i` on. */
  predicate MatchesAt(wild: string, w: nat, s: string, i: nat)
    requires w <= |wild| && i <= |s|
    decreases |wild| - w + |s| - i
  {
    if w == |wild| then i == |s|
    else if wild[w] == '*' then MatchesAt(wild, w + 1, s, i) || (i < |s| && MatchesAt(wild, w, s, i + 1))
    else i < |s| && (wild[w] == s[i] || wild[w] == '?') && MatchesAt(wild, w + 1, s, i + 1)
  }

  lemma {:induction false} MatchesAtIsMatches(wild: string, w: nat, s: string, i: nat)
    requires w <= |wild| && i <= |s|
    ensures MatchesAt(wild, w, s, i) <==> Matches(wild[w..], s[i..])
    decreases |wild| - w + |s| - i
  {
    if w < |wild| {
      assert wild[w..][1..] == wild[w + 1..];
      if wild[w] == '*' {
        MatchesAtIsMatches(wild, w + 1, s, i);
      }
      if i < |s| {
        assert s[i..][1..] == s[i + 1..];
        MatchesAtIsMatches(wild, if wild[w] == '*' then w else w + 1, s, i + 1);
      }
    }
  }

  /** The rest of the pattern matches some rest of the string that starts at `from` or later. */
  ghost predicate MatchesLater(wild: string, w: nat, s: string, from: nat)
    requires w <= |wild|
  {
    exists k :: from <= k <= |s| && MatchesAt(wild, w, s, k)
  }

  lemma {:induction false} AtStar(wild: string, w: nat, s: string, i: nat)
    requires w < |wild| && wild[w] == '*' && i <= |s|
    ensures MatchesAt(wild, w, s, i) <==> MatchesLater(wild, w + 1, s, i)
    decreases |s| - i
  {
    if i < |s| {
      AtStar(wild, w, s, i + 1);
    }
  }

  /** The pattern characters from `m` to `w` match the string characters from `c` on, one by one, without a star. */
  predicate Aligned(wild: string, m: nat, w: nat, s: string, c: nat) {
    && m <= w <= |wild| && c + (w - m) <= |s|
    && forall i :: m <= i < w ==> wild[i] != '*' && (wild[i] == s[c - m + i] || wild[i] == '?')
  }

  /** An aligned stretch can be matched off. */
  lemma {:induction false} AlignedMatch(wild: string, m: nat, w: nat, s: string, c: nat)
    requires Aligned(wild, m, w, s, c)
    ensures MatchesAt(wild, m, s, c) <==> MatchesAt(wild, w, s, c + (w - m))
    decreases w - m
  {
    if m < w {
      AlignedMatch(wild, m + 1, w, s, c + 1);
    }
  }

  /** A match of a pattern that starts with a star-free stretch uses one character for each character of it. */
  lemma {:induction false} StretchLength(wild: string, m: nat, w: nat, s: string, k: nat)
    requires m <= w <= |wild| && k <= |s| && (forall i :: m <= i < w ==> wild[i] != '*') && MatchesAt(wild, m, s, k)
    ensures k + (w - m) <= |s| && MatchesAt(wild, w, s, k + (w - m))
    decreases w - m
  {
    if m < w {
      StretchLength(wild, m + 1, w, s, k + 1);
    }
  }

  /** At a further star the search may forget how it got there: what follows the star need only match from here on. */
  lemma NextStar(wild: string, m: nat, w: nat, s: string, c: nat)
    requires Aligned(wild, m, w, s, c) && w < |wild| && wild[w] == '*'
    ensures MatchesLater(wild, m, s, c) <==> MatchesLater(wild, w + 1, s, c + (w - m))
  {
    if MatchesLater(wild, m, s, c) {
      var k :| c <= k <= |s| && MatchesAt(wild, m, s, k);
      StretchLength(wild, m, w, s, k);
      AtStar(wild, w, s, k + (w - m));
    }
    AtStar(wild, w, s, c + (w - m));
    AlignedMatch(wild, m, w, s, c);
  }

  /** A mismatch after an aligned stretch rules out the start `c`. */
  lemma Mismatch(wild: string, m: nat, w: nat, s: string, c: nat)
    requires Aligned(wild, m, w, s, c) && c + (w - m) < |s|
    requires w == |wild| || (wild[w] != '*' && wild[w] != '?' && wild[w] != s[c + (w - m)])
    ensures MatchesLater(wild, m, s, c) <==> MatchesLater(wild, m, s, c + 1)
  {
    AlignedMatch(wild, m, w, s, c);
  }

  /** When the string is used up, only stars may be left of the pattern. */
  lemma Exhausted(wild: string, m: nat, w: nat, s: string, c: nat)
    requires Aligned(wild, m, w, s, c) && c + (w - m) == |s|
    ensures MatchesLater(wild, m, s, c) <==> MatchesAt(wild, w, s, |s|)
  {
    AlignedMatch(wild, m, w, s, c);
    if MatchesLater(wild, m, s, c) {
      var k :| c <= k <= |s| && MatchesAt(wild, m, s, k);
      StretchLength(wild, m, w, s, k);
    }
  }

  /** The invariant of the backtracking loop. While `cp` is 0 no star was met; then the last star is behind `mp`, the
      current attempt starts at `cp - 1`, and the pattern as a whole matches just if some attempt from there on does. */
  ghost predicate Searching(wild: string, str: string, w: nat, s: nat, mp: nat, cp: nat) {
    && w <= |wild| && s <= |str|
    && (if cp == 0 then
          (s < |str| ==> w < |wild| && wild[w] == '*') && (MatchesAt(wild, 0, str, 0) <==> MatchesAt(wild, w, str, s))
        else
          && cp <= |str| + 1 && s == cp - 1 + (w - mp) && Aligned(wild, mp, w, str, cp - 1)
          && (MatchesAt(wild, 0, str, 0) <==> MatchesLater(wild, mp, str, cp - 1)))
  }

  lemma StarStep(wild: string, str: string, w: nat, s: nat, mp: nat, cp: nat)
    requires Searching(wild, str, w, s, mp, cp) && s < |str| && w < |wild| && wild[w] == '*'
    ensures Searching(wild, str, w + 1, s, w + 1, s + 1)
    ensures w + 1 == |wild| ==> MatchesAt(wild, 0, str, 0)
  {
    if cp > 0 {
      NextStar(wild, mp, w, str, cp - 1);
    } else {
      AtStar(wild, w, str, s);
    }
    assert w + 1 == |wild| ==> MatchesAt(wild, w + 1, str, |str|);
  }

  lemma CharStep(wild: string, str: string, w: nat, s: nat, mp: nat, cp: nat)
    requires Searching(wild, str, w, s, mp, cp) && s < |str| && w < |wild|
    requires wild[w] != '*' && (wild[w] == str[s] || wild[w] == '?')
    ensures Searching(wild, str, w + 1, s + 1, mp, cp)
  {
  }

  lemma BackStep(wild: string, str: string, w: nat, s: nat, mp: nat, cp: nat)
    requires Searching(wild, str, w, s, mp, cp) && s < |str|
    requires w == |wild| || (wild[w] != '*' && wild[w] != '?' && wild[w] != str[s])
    ensures 0 < cp <= |str| && mp <= |wild| && Searching(wild, str, mp, cp, mp, cp + 1)
  {
    Mismatch(wild, mp, w, str, cp - 1);
  }

  lemma EndStep(wild: string, str: string, w: nat, mp: nat, cp: nat)
    requires Searching(wild, str, w, |str|, mp, cp)
    ensures MatchesAt(wild, 0, str, 0) <==> MatchesAt(wild, w, str, |str|)
  {
    if cp > 0 {
      Exhausted(wild, mp, w, str, cp - 1);
    }
  }

  /** The matcher returns 1 exactly when the pattern matches, on every pair of C strings, and it terminates. */
  method StrMatch(wild: string, str: string) returns (r: int)
    requires IsCString(wild) && IsCString(str)
    ensures r == if Matches(wild, str) then 1 else 0
  {
    MatchesAtIsMatches(wild, 0, str, 0);
    assert wild[0..] == wild && str[0..] == str;
    var w, s := 0, 0;
    while CharAt(str, s) != '\0' && CharAt(wild, w) != '*'
      invariant w == s <= |str| && Aligned(wild, 0, w, str, 0)
      decreases |str| - s
    {
      if CharAt(wild, w) != CharAt(str, s) && CharAt(wild, w) != '?' {
        AlignedMatch(wild, 0, w, str, 0);
        return 0;
      }
      w := w + 1;
      s := s + 1;
    }
    AlignedMatch(wild, 0, w, str, 0);

    var mp: nat, cp: nat := 0, 0;
    while CharAt(str, s) != '\0'
      invariant Searching(wild, str, w, s, mp, cp)
      decreases |str| + 1 - cp, |wild| - w
    {
      if CharAt(wild, w) == '*' {
        StarStep(wild, str, w, s, mp, cp);
        w := w + 1;
        if CharAt(wild, w) == '\0' {
          return 1;
        }
        mp := w;
        cp := s + 1;
      } else if CharAt(wild, w) == CharAt(str, s) || CharAt(wild, w) == '?' {
        CharStep(wild, str, w, s, mp, cp);
        w := w + 1;
        s := s + 1;
      } else {
        BackStep(wild, str, w, s, mp, cp);
        w := mp;
        s := cp;
        cp := cp + 1;
      }
    }
    EndStep(wild, str, w, mp, cp);
    while CharAt(wild, w) == '*'
      invariant w <= |wild| && (MatchesAt(wild, 0, str, 0) <==> MatchesAt(wild, w, str, |str|))
      decreases |wild| - w
    {
      w := w + 1;
    }
    r := if CharAt(wild, w) == '\0' then 1 else 0;
  }
}
