/**
 Wildcard matching that goes back to the most recent '*' only, against the recursive
 meaning of '*' and '?'. Strings are without NUL, as C strings are.
 */
module Wildcard {

  /** tolower of the C locale. */
  function ToLower(c: char): char {
    if 'A' <= c <= 'Z' then c + ('a' - 'A') else c
  }

  predicate Same(a: char, b: char, caseSensitive: bool) {
    if caseSensitive then a == b else ToLower(a) == ToLower(b)
  }

  /** '?' stands for one character, '*' for any number of them. */
  predicate Matches(s: string, m: string, cs: bool)
    decreases |s| + |m|
  {
    if m == "" then s == ""
    else if m[0] == '*' then Matches(s, m[1..], cs) || (s != "" && Matches(s[1..], m, cs))
    else s != "" && (m[0] == '?' || Same(m[0], s[0], cs)) && Matches(s[1..], m[1..], cs)
  }

  predicate IsCString(s: string) {
    forall i :: 0 <= i < |s| ==> s[i] != '\0'
  }

  /** The character at `i`, or the terminator. */
  function At(s: string, i: nat): char
    requires i <= |s|
  {
    if i < |s| then s[i] else '\0'
  }

  predicate SameAt(s: string, m: string, si: nat, mi: nat, caseSensitive: bool)
    requires si < |s| && mi <= |m|
  {
    Same(At(m, mi), s[si], caseSensitive)
  }

  predicate NoStar(m: string) {
    forall i :: 0 <= i < |m| ==> m[i] != '*'
  }

  lemma {:induction false} NothingIsNul(c: char, caseSensitive: bool)
    requires c != '\0'
    ensures !Same('\0', c, caseSensitive)
  {}

  /** A star takes in whatever comes before. */
  lemma {:induction false} StarAbsorbs(s: string, m: string, k: nat, cs: bool)
    requires m != "" && m[0] == '*' && k <= |s| && Matches(s[k..], m, cs)
    ensures Matches(s, m, cs)
  {
    if k > 0 {
      assert s[1..][k - 1..] == s[k..];
      StarAbsorbs(s[1..], m, k - 1, cs);
    } else {
      assert s[0..] == s;
    }
  }

  /** A match of a star is a match of the rest at some later place. */
  lemma {:induction false} StarSkips(s: string, m: string, cs: bool) returns (k: nat)
    requires m != "" && m[0] == '*' && Matches(s, m, cs)
    ensures k <= |s| && Matches(s[k..], m[1..], cs)
  {
    if Matches(s, m[1..], cs) {
      k := 0;
      assert s[0..] == s;
    } else {
      var j := StarSkips(s[1..], m, cs);
      k := j + 1;
      assert s[1..][j..] == s[k..];
    }
  }

  /** Without a star, every mask character takes exactly one character. */
  lemma {:induction false} NoStarTakes(s: string, q: string, t: string, cs: bool)
    requires NoStar(q) && Matches(s, q + t, cs)
    ensures |q| <= |s| && Matches(s[|q|..], t, cs)
  {
    if q == "" {
      assert q + t == t && s[0..] == s;
    } else {
      assert (q + t)[0] == q[0] && (q + t)[1..] == q[1..] + t;
      NoStarTakes(s[1..], q[1..], t, cs);
      assert s[1..][|q| - 1..] == s[|q|..];
    }
  }

  lemma {:induction false} StarMatchesAll(s: string, cs: bool)
    ensures Matches(s, "*", cs)
  {
    assert s[|s|..] == "" && "*"[1..] == "";
    StarAbsorbs(s, "*", |s|, cs);
  }

  /** Only stars match the empty string. */
  lemma {:induction false} EmptyMatch(m: string, cs: bool)
    ensures Matches("", m, cs) <==> forall i :: 0 <= i < |m| ==> m[i] == '*'
  {
    if m != "" {
      EmptyMatch(m[1..], cs);
      assert forall i :: 0 <= i < |m| - 1 ==> m[1..][i] == m[i + 1];
      if forall i :: 0 <= i < |m| ==> m[i] == '*' {
        assert m[0] == '*';
      } else if m[0] == '*' {
        var i :| 0 <= i < |m| && m[i] != '*';
        assert m[1..][i - 1] == m[i];
      }
    }
  }

  /** What going back to the last star could still find: `cp` is the next place to try. */
  predicate Retry(s: string, m: string, cp: nat, mp: nat, cs: bool)
    requires mp <= |m|
  {
    cp <= |s| && exists k :: cp <= k <= |s| && Matches(s[k..], m[mp..], cs)
  }

  /** One more place to try. */
  lemma {:induction false} RetryNext(s: string, m: string, cp: nat, mp: nat, next: nat, cs: bool)
    requires mp <= |m| && cp <= |s| && next == cp + 1
    ensures Retry(s, m, cp, mp, cs) <==> Matches(s[cp..], m[mp..], cs) || Retry(s, m, next, mp, cs)
  {}

  /**
   Once the text behind the last star matched up to `mi`, later places to try cannot do better there:
   not at the next star, and not at the end of the subject.
   */
  lemma {:induction false} RetryIsLater(s: string, m: string, cp: nat, mp: nat, si: nat, mi: nat, cs: bool)
    requires mp <= mi <= |m| && NoStar(m[mp..mi]) && si <= |s| && si + mp + 1 == cp + mi
    requires Retry(s, m, cp, mp, cs)
    ensures si < |s| && (mi < |m| && m[mi] == '*' ==> Matches(s[si..], m[mi..], cs))
  {
    var k :| cp <= k <= |s| && Matches(s[k..], m[mp..], cs);
    var q := m[mp..mi];
    assert m[mp..] == q + m[mi..];
    NoStarTakes(s[k..], q, m[mi..], cs);
    assert s[k..][|q|..] == s[k + |q|..];
    if mi < |m| && m[mi] == '*' {
      assert s[si..][k + |q| - si..] == s[k + |q|..];
      StarAbsorbs(s[si..], m[mi..], k + |q| - si, cs);
    }
  }

  lemma {:induction false} Unfold(s: string, m: string, si: nat, mi: nat, cs: bool)
    requires si <= |s| && mi <= |m|
    ensures mi == |m| ==> (Matches(s[si..], m[mi..], cs) <==> si == |s|)
    ensures mi < |m| && m[mi] != '*' && si < |s| ==>
      (Matches(s[si..], m[mi..], cs) <==>
       (m[mi] == '?' || Same(m[mi], s[si], cs)) && Matches(s[si + 1..], m[mi + 1..], cs))
    ensures mi < |m| && m[mi] == '*' ==>
      (Matches(s[si..], m[mi..], cs) <==>
       Matches(s[si..], m[mi + 1..], cs) || (si < |s| && Matches(s[si + 1..], m[mi..], cs)))
  {
    if mi < |m| {
      assert m[mi..][1..] == m[mi + 1..];
    }
    if si < |s| {
      assert s[si..][1..] == s[si + 1..];
    }
  }

  /** A star that matches from `si` on: the text behind it here, or at a later place. */
  lemma {:induction false} StarIsRetry(s: string, m: string, si: nat, mi: nat, next: nat, mp: nat, cs: bool)
    requires si < |s| && mi < |m| && m[mi] == '*' && mp == mi + 1 && next == si + 1
    ensures Matches(s[si..], m[mi..], cs) <==> Matches(s[si..], m[mp..], cs) || Retry(s, m, next, mp, cs)
  {
    assert m[mi..][1..] == m[mp..];
    if Matches(s[si..], m[mi..], cs) {
      var k := StarSkips(s[si..], m[mi..], cs);
      assert s[si..][k..] == s[si + k..];
    }
    if Retry(s, m, next, mp, cs) {
      var k :| next <= k <= |s| && Matches(s[k..], m[mp..], cs);
      Unfold(s, m, k, mi, cs);
      assert s[si..][k - si..] == s[k..];
      StarAbsorbs(s[si..], m[mi..], k - si, cs);
    } else if Matches(s[si..], m[mp..], cs) {
      Unfold(s, m, si, mi, cs);
    }
  }

  /** string_util_wildcard_match, which only ever goes back to the last star, decides the recursive definition. */
  method WildcardMatch(subject: string, mask: string, caseSensitive: bool) returns (r: bool)
    requires IsCString(subject) && IsCString(mask)
    ensures r <==> Matches(subject, mask, caseSensitive)
  {
    hide Matches, Retry, Same;
    var si, mi := 0, 0;
    assert subject[0..] == subject && mask[0..] == mask;
    while At(subject, si) != '\0' && At(mask, mi) != '*'
      invariant si <= |subject| && mi <= |mask|
      invariant Matches(subject[si..], mask[mi..], caseSensitive) <==> Matches(subject, mask, caseSensitive)
      decreases |subject| - si
    {
      Unfold(subject, mask, si, mi, caseSensitive);
      NothingIsNul(subject[si], caseSensitive);
      if At(mask, mi) != '?' && !SameAt(subject, mask, si, mi, caseSensitive) {
        return false;
      }
      si, mi := si + 1, mi + 1;
    }
    var cp, mp := 0, 0;
    ghost var started := false;
    while At(subject, si) != '\0'
      invariant si <= |subject| && mp <= mi <= |mask|
      invariant !started ==> (si < |subject| ==> At(mask, mi) == '*') && cp == 0 && mp == 0
      invariant !started ==>
        (Matches(subject[si..], mask[mi..], caseSensitive) <==> Matches(subject, mask, caseSensitive))
      invariant started ==> cp <= |subject| + 1 && si + mp + 1 == cp + mi && NoStar(mask[mp..mi])
      invariant started ==> (Matches(subject, mask, caseSensitive) <==>
        Matches(subject[si..], mask[mi..], caseSensitive) || Retry(subject, mask, cp, mp, caseSensitive))
      decreases !started, |subject| + 1 - cp, |mask| - mp, |subject| - si
    {
      Unfold(subject, mask, si, mi, caseSensitive);
      NothingIsNul(subject[si], caseSensitive);
      if At(mask, mi) == '*' {
        if started && Retry(subject, mask, cp, mp, caseSensitive) {
          RetryIsLater(subject, mask, cp, mp, si, mi, caseSensitive);
        }
        StarIsRetry(subject, mask, si, mi, si + 1, mi + 1, caseSensitive);
        mi := mi + 1;
        if At(mask, mi) == '\0' {
          assert mask[mi - 1..] == "*";
          StarMatchesAll(subject[si..], caseSensitive);
          return true;
        }
        mp := mi;
        cp := si + 1;
        started := true;
      } else if At(mask, mi) == '?' || SameAt(subject, mask, si, mi, caseSensitive) {
        assert mask[mp..mi + 1] == mask[mp..mi] + [mask[mi]];
        mi := mi + 1;
        si := si + 1;
      } else {
        RetryNext(subject, mask, cp, mp, cp + 1, caseSensitive);
        mi := mp;
        si := cp;
        cp := cp + 1;
      }
    }
    if started && Retry(subject, mask, cp, mp, caseSensitive) {
      RetryIsLater(subject, mask, cp, mp, si, mi, caseSensitive);
    }
    assert subject[si..] == "";
    EmptyMatch(mask[mi..], caseSensitive);
    ghost var first := mi;
    while At(mask, mi) == '*'
      invariant first <= mi <= |mask| && forall i :: first <= i < mi ==> mask[i] == '*'
      decreases |mask| - mi
    {
      mi := mi + 1;
    }
    r := At(mask, mi) == '\0';
    if !r {
      assert mask[first..][mi - first] == mask[mi];
    }
  }

  // ----- what a match is

  const CAPITALS := "ABCDEFGHIJKLMNOPQRSTUVWXYZ"
  const SMALL := "abcdefghijklmnopqrstuvwxyz"

  /** The same letter in the two cases. */
  predicate TwoCases(a: char, b: char) {
    exists k :: 0 <= k < 26 && a == CAPITALS[k] && b == SMALL[k]
  }

  /** Case matters in the sensitive mode; in the other one, only the case of a letter may differ. */
  lemma {:induction false} SameMeans(a: char, b: char, cs: bool)
    ensures Same(a, b, cs) <==> a == b || (!cs && (TwoCases(a, b) || TwoCases(b, a)))
  {
    forall c: char, d: char ensures TwoCases(c, d) <==> 'A' <= c <= 'Z' && d as int == c as int + 32 {
      Letters(c, d);
    }
  }

  lemma {:induction false} Letters(c: char, d: char)
    ensures TwoCases(c, d) <==> 'A' <= c <= 'Z' && d as int == c as int + 32
  {
    assert forall k :: 0 <= k < 26 ==> CAPITALS[k] as int == 65 + k && SMALL[k] as int == 97 + k;
    if 'A' <= c <= 'Z' {
      assert c == CAPITALS[c as int - 65];
    }
  }

  /** What one character of the mask takes: anything, any one character, or itself. */
  predicate Takes(c: char, piece: string, cs: bool) {
    c == '*' || (|piece| == 1 && (c == '?' || Same(c, piece[0], cs)))
  }

  function Joined(pieces: seq<string>): string {
    if pieces == [] then "" else pieces[0] + Joined(pieces[1..])
  }

  /** The string is cut into as many pieces as the mask has characters, and each takes its piece. */
  ghost predicate IsCut(s: string, m: string, cs: bool, pieces: seq<string>) {
    |pieces| == |m| && Joined(pieces) == s && forall i :: 0 <= i < |m| ==> Takes(m[i], pieces[i], cs)
  }

  /** A string matches exactly if it can be cut that way. */
  lemma {:induction false} MatchIsCut(s: string, m: string, cs: bool)
    ensures Matches(s, m, cs) <==> exists pieces :: IsCut(s, m, cs, pieces)
  {
    if Matches(s, m, cs) {
      var pieces := CutOfMatch(s, m, cs);
    }
    if pieces :| IsCut(s, m, cs, pieces) {
      MatchOfCut(s, m, cs, pieces);
    }
  }

  lemma {:induction false} CutOfMatch(s: string, m: string, cs: bool) returns (pieces: seq<string>)
    requires Matches(s, m, cs)
    ensures IsCut(s, m, cs, pieces)
    decreases |m|
  {
    if m == "" {
      pieces := [];
    } else {
      var k := 1;
      if m[0] == '*' {
        k := StarSkips(s, m, cs);
      }
      var rest := CutOfMatch(s[k..], m[1..], cs);
      pieces := [s[..k]] + rest;
      assert s[..k] + s[k..] == s;
      assert pieces[1..] == rest;
    }
  }

  lemma {:induction false} MatchOfCut(s: string, m: string, cs: bool, pieces: seq<string>)
    requires IsCut(s, m, cs, pieces)
    ensures Matches(s, m, cs)
    decreases |m|
  {
    if m != "" {
      var k := |pieces[0]|;
      assert s[k..] == Joined(pieces[1..]);
      MatchOfCut(s[k..], m[1..], cs, pieces[1..]);
      if m[0] == '*' {
        StarTakes(s, m, k, cs);
      } else {
        assert s[0] == pieces[0][0];
      }
    }
  }

  lemma {:induction false} StarTakes(s: string, m: string, k: nat, cs: bool)
    requires m != "" && m[0] == '*' && k <= |s| && Matches(s[k..], m[1..], cs)
    ensures Matches(s, m, cs)
  {
    assert Matches(s[k..], m, cs);
    StarAbsorbs(s, m, k, cs);
  }

  /** A mask without stars and question marks matches itself alone, or what differs from it in the case of letters. */
  lemma {:induction false} PlainMask(s: string, m: string, cs: bool)
    requires forall i :: 0 <= i < |m| ==> m[i] != '*' && m[i] != '?'
    ensures Matches(s, m, cs) <==> |s| == |m| && forall i :: 0 <= i < |m| ==> Same(m[i], s[i], cs)
    ensures cs ==> (Matches(s, m, cs) <==> s == m)
  {
    if m != "" && s != "" {
      PlainMask(s[1..], m[1..], cs);
      assert s == [s[0]] + s[1..] && m == [m[0]] + m[1..];
    }
  }
}
